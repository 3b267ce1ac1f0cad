/**
 * The priority queue: two parallel sequences, the elements and their
 * priorities, kept in lock-step and sorted by ascending priority. A new entry
 * goes before the first strictly greater priority, so equal priorities are
 * served in arrival order.
 */
module PriorityQueues {
  import opened Wrappers
  import opened Ordering

  /** The lock-step, sorted-by-priority invariant. */
  ghost predicate QueueInv<E>(es: seq<E>, ps: seq<int>) {
    |es| == |ps| && SortedBy(ps, Identity)
  }

  /** `add(e, priority)`: both sequences get the new entry at the same position. */
  function Enqueued<E>(es: seq<E>, ps: seq<int>, e: E, p: int): (r: (seq<E>, seq<int>))
    requires |es| == |ps|
    ensures |r.0| == |r.1| == |es| + 1
    ensures multiset(r.0) == multiset(es) + multiset{e}
    ensures multiset(r.1) == multiset(ps) + multiset{p}
  {
    var i := FirstGreater(ps, Identity, p);
    InsertAtContents(es, i, e);
    InsertAtContents(ps, i, p);
    (InsertAt(es, i, e), InsertAt(ps, i, p))
  }

  /** `list.index`: the position of the first occurrence. */
  function IndexOf<E(==)>(s: seq<E>, x: E): (i: nat)
    requires x in s
    ensures i < |s| && s[i] == x
    ensures forall j :: 0 <= j < i ==> s[j] != x
  {
    if s[0] == x then 0 else 1 + IndexOf(s[1..], x)
  }

  /**
   * `decrease_priority(e, p)`: when `e` is present and `p` is strictly below the
   * priority of its first occurrence, that entry is taken out and `e` is added
   * again with priority `p`; otherwise nothing changes.
   */
  function Decreased<E(==)>(es: seq<E>, ps: seq<int>, e: E, p: int): (r: (seq<E>, seq<int>))
    requires |es| == |ps|
    ensures |r.0| == |r.1| == |es|
    ensures multiset(r.0) == multiset(es)
    ensures e !in es ==> r == (es, ps)
    ensures e in es && p >= ps[IndexOf(es, e)] ==> r == (es, ps)
  {
    if e !in es then (es, ps)
    else
      var k := IndexOf(es, e);
      if p >= ps[k] then (es, ps)
      else
        var es1 := RemoveAt(es, k);
        RemoveAtContents(es, k);
        assert multiset(es1) + multiset{e} == multiset(es);
        Enqueued(es1, RemoveAt(ps, k), e, p)
  }

  /** The entries of the queue: each element paired with the priority at its index. */
  function Pairs<E>(es: seq<E>, ps: seq<int>): (r: seq<(E, int)>)
    requires |es| == |ps|
    ensures |r| == |es|
    ensures forall i :: 0 <= i < |r| ==> r[i] == (es[i], ps[i])
  {
    if es == [] then [] else [(es[0], ps[0])] + Pairs(es[1..], ps[1..])
  }

  /**
   * `add` inserts the entry `(e, p)` into the sequence of entries at the first
   * strictly greater priority, so it goes after every entry of equal priority;
   * every other entry keeps its priority and its place in the order.
   */
  lemma EnqueuePairs<E>(es: seq<E>, ps: seq<int>, e: E, p: int)
    requires QueueInv(es, ps)
    ensures var i := FirstGreater(ps, Identity, p);
      && Pairs(Enqueued(es, ps, e, p).0, Enqueued(es, ps, e, p).1) == InsertAt(Pairs(es, ps), i, (e, p))
      && (forall j :: 0 <= j < i ==> ps[j] <= p)
      && (forall j :: i <= j < |ps| ==> p < ps[j])
  {
    var i := FirstGreater(ps, Identity, p);
    var (es', ps') := Enqueued(es, ps, e, p);
    var want := InsertAt(Pairs(es, ps), i, (e, p));
    forall j | 0 <= j < |want| ensures Pairs(es', ps')[j] == want[j] {
      if j < i {
        assert es'[j] == es[j] && ps'[j] == ps[j] && want[j] == Pairs(es, ps)[j];
      } else if i < j {
        assert es'[j] == es[j - 1] && ps'[j] == ps[j - 1] && want[j] == Pairs(es, ps)[j - 1];
      }
    }
    forall j | i <= j < |ps| ensures p < ps[j] {
      assert Identity(ps[i]) <= Identity(ps[j]);
    }
  }

  /**
   * A decrease that takes effect removes the entry of the first occurrence of
   * `e` and re-inserts `(e, p)` at the new priority's sorted position; every
   * other entry keeps its priority and its relative order.
   */
  lemma DecreasePairs<E>(es: seq<E>, ps: seq<int>, e: E, p: int)
    requires QueueInv(es, ps) && e in es && p < ps[IndexOf(es, e)]
    ensures var k := IndexOf(es, e);
      var j := FirstGreater(RemoveAt(ps, k), Identity, p);
      Pairs(Decreased(es, ps, e, p).0, Decreased(es, ps, e, p).1) == InsertAt(RemoveAt(Pairs(es, ps), k), j, (e, p))
  {
    var k := IndexOf(es, e);
    var es1, ps1 := RemoveAt(es, k), RemoveAt(ps, k);
    RemoveKeepsSorted(ps, Identity, k);
    var old1 := RemoveAt(Pairs(es, ps), k);
    forall i | 0 <= i < |old1| ensures old1[i] == Pairs(es1, ps1)[i] {
      if i < k {
        assert es1[i] == es[i] && ps1[i] == ps[i];
      } else {
        assert es1[i] == es[i + 1] && ps1[i] == ps[i + 1] && old1[i] == Pairs(es, ps)[i + 1];
      }
    }
    assert old1 == Pairs(es1, ps1);
    EnqueuePairs(es1, ps1, e, p);
  }

  /** `add` keeps the lists in lock-step and sorted, one entry longer, the new one with priority `p`. */
  lemma EnqueueKeepsInv<E>(es: seq<E>, ps: seq<int>, e: E, p: int)
    requires QueueInv(es, ps)
    ensures var (es', ps') := Enqueued(es, ps, e, p);
      && QueueInv(es', ps') && |es'| == |es| + 1
      && exists i :: 0 <= i < |es'| && es'[i] == e && ps'[i] == p
  {
    var i := FirstGreater(ps, Identity, p);
    InsertKeepsSorted(ps, Identity, p);
    assert Enqueued(es, ps, e, p).0[i] == e && Enqueued(es, ps, e, p).1[i] == p;
  }

  /** The front entry has a minimum priority. */
  lemma FrontIsMinimum(ps: seq<int>)
    requires SortedBy(ps, Identity) && ps != []
    ensures forall i :: 0 <= i < |ps| ==> ps[0] <= ps[i]
  {
    forall i | 0 < i < |ps| ensures ps[0] <= ps[i] {
      assert Identity(ps[0]) <= Identity(ps[i]);
    }
  }

  /** `decrease_priority` keeps the invariant and the size, and changes no element. */
  lemma DecreaseKeepsInv<E>(es: seq<E>, ps: seq<int>, e: E, p: int)
    requires QueueInv(es, ps)
    ensures QueueInv(Decreased(es, ps, e, p).0, Decreased(es, ps, e, p).1)
    ensures |Decreased(es, ps, e, p).0| == |es|
    ensures multiset(Decreased(es, ps, e, p).0) == multiset(es)
  {
    if e in es {
      var k := IndexOf(es, e);
      if p < ps[k] {
        var es1, ps1 := RemoveAt(es, k), RemoveAt(ps, k);
        RemoveKeepsSorted(ps, Identity, k);
        RemoveAtContents(es, k);
        EnqueueKeepsInv(es1, ps1, e, p);
      }
    }
  }

  /**
   * A decrease that takes effect moves the entry to a position no later than
   * the one it had, carrying the new priority.
   */
  lemma DecreaseMovesForward<E>(es: seq<E>, ps: seq<int>, e: E, p: int)
    requires QueueInv(es, ps) && e in es && p < ps[IndexOf(es, e)]
    ensures var k := IndexOf(es, e);
      var j := FirstGreater(RemoveAt(ps, k), Identity, p);
      && j <= k
      && Decreased(es, ps, e, p).0[j] == e
      && Decreased(es, ps, e, p).1[j] == p
  {
    var k := IndexOf(es, e);
    var ps1 := RemoveAt(ps, k);
    if k < |ps1| {
      assert ps1[k] == ps[k + 1];
      assert Identity(ps[k]) <= Identity(ps[k + 1]);
    }
  }

  class PriorityQueue<E(==)> {
    var elements: seq<E>
    var priorities: seq<int>

    ghost predicate Valid()
      reads this
    {
      QueueInv(elements, priorities)
    }

    constructor ()
      ensures Valid() && elements == [] && priorities == []
    {
      elements, priorities := [], [];
    }

    /** `size()`: the number of entries, counted in either sequence. */
    function Size(): (r: nat)
      reads this
      ensures r == 0 <==> elements == []
      ensures Valid() ==> r == |priorities|
    {
      |elements|
    }

    /** `is_empty()`. */
    predicate IsEmpty()
      reads this
      ensures IsEmpty() <==> Size() == 0
      ensures Valid() ==> (IsEmpty() <==> priorities == [])
    {
      |elements| == 0
    }

    /** `_index_order(priority)`: the first position holding a strictly greater priority. */
    method IndexOrder(p: int) returns (i: nat)
      ensures i == FirstGreater(priorities, Identity, p)
    {
      i := 0;
      while i < |priorities|
        invariant i <= |priorities|
        invariant forall j :: 0 <= j < i ==> priorities[j] <= p
      {
        if p < priorities[i] {
          FirstGreaterUnique(priorities, Identity, p, i);
          return;
        }
        i := i + 1;
      }
      FirstGreaterUnique(priorities, Identity, p, i);
    }

    method Add(e: E, p: int)
      requires Valid()
      modifies this
      ensures Valid()
      ensures (elements, priorities) == Enqueued(old(elements), old(priorities), e, p)
    {
      EnqueueKeepsInv(elements, priorities, e, p);
      var i := IndexOrder(p);
      elements := elements[..i] + [e] + elements[i..];
      priorities := priorities[..i] + [p] + priorities[i..];
    }

    /** `remove()`: the front entry, whose priority is minimal; an empty queue raises. */
    method Remove() returns (r: Result<E, Error>)
      requires Valid()
      modifies this
      ensures Valid()
      ensures old(elements) == [] ==>
        r == Failure(EmptyContainer) && elements == old(elements) && priorities == old(priorities)
      ensures old(elements) != [] ==>
        && r == Success(old(elements)[0])
        && elements == old(elements)[1..] && priorities == old(priorities)[1..]
        && forall i :: 0 <= i < |old(priorities)| ==> old(priorities)[0] <= old(priorities)[i]
    {
      if IsEmpty() {
        return Failure(EmptyContainer);
      }
      FrontIsMinimum(priorities);
      r := Success(elements[0]);
      priorities := priorities[1..];
      elements := elements[1..];
    }

    /** `remove_all()`: drains the queue in priority order. */
    method RemoveAll() returns (removed: seq<E>)
      requires Valid()
      modifies this
      ensures Valid()
      ensures removed == old(elements) && elements == [] && priorities == []
    {
      removed := [];
      while !IsEmpty()
        invariant Valid()
        invariant removed + elements == old(elements)
        decreases |elements|
      {
        ghost var before := elements;
        var r := Remove();
        assert before == [r.value] + elements;
        assert removed + [r.value] + elements == removed + before;
        removed := removed + [r.value];
      }
      assert removed + elements == removed;
    }

    method DecreasePriority(e: E, p: int)
      requires Valid()
      modifies this
      ensures Valid()
      ensures (elements, priorities) == Decreased(old(elements), old(priorities), e, p)
    {
      DecreaseKeepsInv(elements, priorities, e, p);
      if e in elements {
        var k := IndexOf(elements, e);
        if p < priorities[k] {
          RemoveKeepsSorted(priorities, Identity, k);
          elements := RemoveAt(elements, k);
          priorities := RemoveAt(priorities, k);
          Add(e, p);
        }
      }
    }
  }

  lemma PatientBBeforeA()
    ensures Enqueued(["Paciente A"], [3], "Paciente B", 2)
      == (["Paciente B", "Paciente A"], [2, 3])
  {
    assert FirstGreater([3], Identity, 2) == 0;
    assert InsertAt(["Paciente A"], 0, "Paciente B") == ["Paciente B", "Paciente A"];
    assert InsertAt([3], 0, 2) == [2, 3];
  }

  lemma PatientCFirst()
    ensures Enqueued(["Paciente B", "Paciente A"], [2, 3], "Paciente C", 1)
      == (["Paciente C", "Paciente B", "Paciente A"], [1, 2, 3])
  {
    assert FirstGreater([2, 3], Identity, 1) == 0;
    assert InsertAt(["Paciente B", "Paciente A"], 0, "Paciente C") == ["Paciente C", "Paciente B", "Paciente A"];
    assert InsertAt([2, 3], 0, 1) == [1, 2, 3];
  }

  /** The patients script: priorities 3, 2, 1 are served C, B, A. */
  method PatientsScenario() {
    var q := new PriorityQueue<string>();
    q.Add("Paciente A", 3);
    assert q.elements == ["Paciente A"] && q.priorities == [3];
    AdmitLaterPatients(q);
    ServePatients(q);
  }

  /** B with priority 2 goes before A, then C with priority 1 before both. */
  method AdmitLaterPatients(q: PriorityQueue<string>)
    requires q.Valid() && q.elements == ["Paciente A"] && q.priorities == [3]
    modifies q
    ensures q.Valid() && q.elements == ["Paciente C", "Paciente B", "Paciente A"]
  {
    PatientBBeforeA();
    q.Add("Paciente B", 2);
    PatientCFirst();
    q.Add("Paciente C", 1);
  }

  /** The end of the patients script: draining serves C, B, A. */
  method ServePatients(q: PriorityQueue<string>)
    requires q.Valid() && q.elements == ["Paciente C", "Paciente B", "Paciente A"]
    modifies q
  {
    var served := q.RemoveAll();
    assert served == ["Paciente C", "Paciente B", "Paciente A"];
  }
}
