/**
 * Linear aggregates: a base container owning one sequence of elements, with
 * the placement policy of `add` chosen per variant (ordered list, ordered list
 * without repetition, queue, stack, bounded queue). Removal always takes the
 * element at the front.
 */
module LinearAggregates {
  import opened Wrappers
  import opened Ordering

  /** The variant of the aggregate: where `add` puts a new element. */
  datatype Policy<!E> =
    | Ordered(key: E -> int)          // insertion-sorted by key, stable on ties
    | OrderedNoRepeat(key: E -> int)  // as Ordered, but an element already present is not added
    | Fifo                            // append at the end
    | Lifo                            // insert at the front
    | Bounded(capacity: nat)          // append at the end while below capacity

  /** What each variant keeps true of its element sequence. */
  ghost predicate Inv<E>(p: Policy<E>, s: seq<E>) {
    match p
    case Ordered(key) => SortedBy(s, key)
    case OrderedNoRepeat(key) => SortedBy(s, key) && Distinct(s)
    case Fifo => true
    case Lifo => true
    case Bounded(c) => 0 < c && |s| <= c
  }

  /** The effect of one `add` on the element sequence. */
  function AddStep<E(==)>(p: Policy<E>, s: seq<E>, e: E): (r: Result<seq<E>, Error>)
    ensures r.Failure? ==> p.Bounded? && r.error == Overflow
    ensures r.Success? ==>
      multiset(r.value) == multiset(s) + if p.OrderedNoRepeat? && e in s then multiset{} else multiset{e}
  {
    match p
    case Ordered(key) => Success(OrderedInsert(s, key, e))
    case OrderedNoRepeat(key) => Success(if e in s then s else OrderedInsert(s, key, e))
    case Fifo => Success(s + [e])
    case Lifo => Success([e] + s)
    case Bounded(c) => if |s| >= c then Failure(Overflow) else Success(s + [e])
  }

  /** `add_all`: `add` of each element in turn, stopping at the first that raises. */
  function AddAllSteps<E(==)>(p: Policy<E>, s: seq<E>, ls: seq<E>): (r: (seq<E>, Outcome))
    ensures multiset(s) <= multiset(r.0) <= multiset(s) + multiset(ls)
    ensures r.1.Fail? ==> p.Bounded? && r.1.error == Overflow
    decreases |ls|
  {
    if ls == [] then (s, Pass)
    else
      assert ls == [ls[0]] + ls[1..];
      match AddStep(p, s, ls[0])
      case Failure(err) => (s, Fail(err))
      case Success(s') => AddAllSteps(p, s', ls[1..])
  }

  /** Every `add` keeps the variant's invariant. */
  lemma AddStepKeepsInv<E>(p: Policy<E>, s: seq<E>, e: E)
    requires Inv(p, s)
    ensures AddStep(p, s, e).Success? ==> Inv(p, AddStep(p, s, e).value)
  {
    match p
    case Ordered(key) => InsertKeepsSorted(s, key, e);
    case OrderedNoRepeat(key) =>
      if e !in s {
        InsertKeepsSorted(s, key, e);
        var i := FirstGreater(s, key, key(e));
        var r := OrderedInsert(s, key, e);
        forall a, b | 0 <= a < b < |r| ensures r[a] != r[b] {
          if a < i {
            if b == i { assert r[a] == s[a]; }
            else if b < i { assert r[a] == s[a] && r[b] == s[b]; }
            else { assert r[a] == s[a] && r[b] == s[b - 1]; }
          } else if a == i {
            assert r[b] == s[b - 1];
          } else {
            assert r[a] == s[a - 1] && r[b] == s[b - 1];
          }
        }
      }
    case Fifo =>
    case Lifo =>
    case Bounded(c) =>
  }

  /** Only a full bounded queue refuses an element, with an overflow. */
  lemma AddStepFailsExactlyWhenFull<E>(p: Policy<E>, s: seq<E>, e: E)
    ensures AddStep(p, s, e).Failure? <==> p.Bounded? && |s| >= p.capacity
    ensures AddStep(p, s, e).Failure? ==> AddStep(p, s, e).error == Overflow
  {
  }

  /**
   * Queue and stack: one more element, placed at the back or the front, and
   * the other elements in their previous relative order.
   */
  lemma QueueAndStackPlacement<E>(p: Policy<E>, s: seq<E>, e: E)
    requires p.Fifo? || p.Lifo?
    ensures AddStep(p, s, e).Success?
    ensures var r := AddStep(p, s, e).value;
      |r| == |s| + 1
      && (p.Fifo? ==> r[|s|] == e && r[..|s|] == s)
      && (p.Lifo? ==> r[0] == e && r[1..] == s)
  {
  }

  /** The ordered variants add `e` (unless the no-repetition variant already has it). */
  lemma OrderedAddContents<E>(p: Policy<E>, s: seq<E>, e: E)
    requires p.Ordered? || p.OrderedNoRepeat?
    ensures AddStep(p, s, e).Success?
    ensures var r := AddStep(p, s, e).value;
      if p.OrderedNoRepeat? && e in s then r == s
      else multiset(r) == multiset(s) + multiset{e}
  {
    InsertAtContents(s, FirstGreater(s, p.key, p.key(e)), e);
  }

  /** `add_all` on an ordered list keeps it sorted and adds every element. */
  lemma {:induction false} AddAllOrdered<E>(key: E -> int, s: seq<E>, ls: seq<E>)
    requires SortedBy(s, key)
    ensures AddAllSteps(Ordered(key), s, ls).1 == Pass
    ensures SortedBy(AddAllSteps(Ordered(key), s, ls).0, key)
    ensures multiset(AddAllSteps(Ordered(key), s, ls).0) == multiset(s) + multiset(ls)
    decreases |ls|
  {
    if ls != [] {
      var s' := OrderedInsert(s, key, ls[0]);
      assert AddAllSteps(Ordered(key), s, ls) == AddAllSteps(Ordered(key), s', ls[1..]);
      InsertKeepsSorted(s, key, ls[0]);
      AddAllOrdered(key, s', ls[1..]);
      assert multiset(ls) == multiset{ls[0]} + multiset(ls[1..]) by {
        assert ls == [ls[0]] + ls[1..];
      }
    }
  }

  /** Keeping the invariant through `add_all`, whether or not it stops early. */
  lemma {:induction false} AddAllKeepsInv<E>(p: Policy<E>, s: seq<E>, ls: seq<E>)
    requires Inv(p, s)
    ensures Inv(p, AddAllSteps(p, s, ls).0)
    decreases |ls|
  {
    if ls != [] {
      AddStepKeepsInv(p, s, ls[0]);
      if AddStep(p, s, ls[0]).Success? {
        AddAllKeepsInv(p, AddStep(p, s, ls[0]).value, ls[1..]);
      }
    }
  }

  /** The elements of `s` satisfying `f`, in their order in `s`. */
  function Filtered<E>(s: seq<E>, f: E -> bool): (r: seq<E>)
    ensures |r| <= |s|
    ensures forall i :: 0 <= i < |r| ==> f(r[i])
    ensures forall x :: x in r ==> x in s
  {
    if s == [] then []
    else if f(s[0]) then [s[0]] + Filtered(s[1..], f)
    else Filtered(s[1..], f)
  }

  /** `filter` keeps exactly the occurrences that satisfy `f`. */
  lemma {:induction false} FilteredContents<E>(s: seq<E>, f: E -> bool)
    ensures forall x :: multiset(Filtered(s, f))[x] == if f(x) then multiset(s)[x] else 0
  {
    if s != [] {
      FilteredContents(s[1..], f);
      assert s == [s[0]] + s[1..];
    }
  }

  /** `filter` preserves order: filtering a concatenation concatenates the filtered parts. */
  lemma {:induction false} FilteredAppend<E>(s: seq<E>, t: seq<E>, f: E -> bool)
    ensures Filtered(s + t, f) == Filtered(s, f) + Filtered(t, f)
  {
    if s != [] {
      FilteredAppend(s[1..], t, f);
      assert (s + t)[0] == s[0] && (s + t)[1..] == s[1..] + t;
    } else {
      assert s + t == t;
    }
  }

  class Aggregate<E(==)> {
    const policy: Policy<E>
    var elements: seq<E>

    ghost predicate Valid()
      reads this
    {
      Inv(policy, elements)
    }

    /** A fresh, empty aggregate of the given variant. */
    constructor (policy: Policy<E>)
      requires !policy.Bounded? || policy.capacity > 0
      ensures Valid() && this.policy == policy && elements == []
    {
      this.policy := policy;
      elements := [];
    }

    /** `ColaConLimite(capacidad)`: refuses a capacity that is not positive. */
    static method NewBounded(capacity: int) returns (r: Result<Aggregate<E>, Error>)
      ensures capacity <= 0 ==> r.Failure? && r.error == InvalidCapacity
      ensures capacity > 0 ==>
        && r.Success? && fresh(r.value) && r.value.Valid()
        && r.value.policy == Bounded(capacity) && r.value.elements == []
    {
      if capacity <= 0 {
        return Failure(InvalidCapacity);
      }
      var q := new Aggregate(Bounded(capacity));
      return Success(q);
    }

    /** `size()`: never above the capacity of a bounded queue. */
    function Size(): (r: nat)
      reads this
      ensures r == 0 <==> elements == []
      ensures Valid() && policy.Bounded? ==> r <= policy.capacity
    {
      |elements|
    }

    /** `is_empty()`: no element to remove. */
    predicate IsEmpty()
      reads this
      ensures IsEmpty() <==> Size() == 0
      ensures IsEmpty() <==> elements == []
    {
      |elements| == 0
    }

    /** `is_full()`: under the invariant, exactly when the size has reached the capacity. */
    predicate IsFull()
      reads this
      requires policy.Bounded?
      ensures Valid() ==> (IsFull() <==> Size() == policy.capacity)
    {
      |elements| >= policy.capacity
    }

    /** `_index_order(e)`: the first position whose key is strictly greater than `e`'s. */
    method IndexOrder(e: E) returns (i: nat)
      requires policy.Ordered? || policy.OrderedNoRepeat?
      ensures i == FirstGreater(elements, policy.key, policy.key(e))
    {
      var key := policy.key;
      i := 0;
      while i < |elements|
        invariant i <= |elements|
        invariant forall j :: 0 <= j < i ==> key(elements[j]) <= key(e)
      {
        if key(e) < key(elements[i]) {
          FirstGreaterUnique(elements, key, key(e), i);
          return;
        }
        i := i + 1;
      }
      FirstGreaterUnique(elements, key, key(e), i);
    }

    /** `add(e)`, dispatched on the variant. */
    method Add(e: E) returns (out: Outcome)
      requires Valid()
      modifies this
      ensures Valid()
      ensures AddStep(policy, old(elements), e).Success? ==>
        out == Pass && elements == AddStep(policy, old(elements), e).value
      ensures AddStep(policy, old(elements), e).Failure? ==>
        out == Fail(AddStep(policy, old(elements), e).error) && elements == old(elements)
    {
      AddStepKeepsInv(policy, elements, e);
      match policy {
        case Ordered(key) =>
          var i := IndexOrder(e);
          elements := elements[..i] + [e] + elements[i..];
        case OrderedNoRepeat(key) =>
          if e !in elements {
            var i := IndexOrder(e);
            elements := elements[..i] + [e] + elements[i..];
          }
        case Fifo =>
          elements := elements + [e];
        case Lifo =>
          elements := [e] + elements;
        case Bounded(c) =>
          if IsFull() {
            return Fail(Overflow);
          }
          elements := elements + [e];
      }
      out := Pass;
    }

    /** `add_all(ls)`: repeated `add`; an exception stops it with earlier additions kept. */
    method AddAll(ls: seq<E>) returns (out: Outcome)
      requires Valid()
      modifies this
      ensures Valid()
      ensures (elements, out) == AddAllSteps(policy, old(elements), ls)
    {
      var k := 0;
      while k < |ls|
        invariant k <= |ls| && Valid()
        invariant AddAllSteps(policy, old(elements), ls) == AddAllSteps(policy, elements, ls[k..])
      {
        assert ls[k..][0] == ls[k] && ls[k..][1..] == ls[k + 1..];
        var o := Add(ls[k]);
        if o.Fail? {
          return o;
        }
        k := k + 1;
      }
      return Pass;
    }

    /** `remove()`: takes the front element; an empty aggregate raises and is left as it was. */
    method Remove() returns (r: Result<E, Error>)
      requires Valid()
      modifies this
      ensures Valid()
      ensures old(elements) == [] ==> r == Failure(EmptyContainer) && elements == old(elements)
      ensures old(elements) != [] ==> r == Success(old(elements)[0]) && elements == old(elements)[1..]
    {
      if IsEmpty() {
        return Failure(EmptyContainer);
      }
      r := Success(elements[0]);
      elements := elements[1..];
    }

    /** `remove_all()`: drains the aggregate, returning the elements in removal order. */
    method RemoveAll() returns (removed: seq<E>)
      requires Valid()
      modifies this
      ensures Valid()
      ensures removed == old(elements) && elements == []
    {
      removed := [];
      while !IsEmpty()
        invariant Valid()
        invariant removed + elements == old(elements)
        decreases |elements|
      {
        ghost var before := elements;
        var r := Remove();
        assert before == [r.value] + elements;
        assert removed + [r.value] + elements == removed + before;
        removed := removed + [r.value];
      }
      assert removed + elements == removed;
    }

    /** `contains(e)`. */
    function Contains(e: E): (r: bool)
      reads this
      ensures r <==> exists i :: 0 <= i < |elements| && elements[i] == e
    {
      e in elements
    }

    /** `find(func)`: the first element satisfying `f`, or `None`. */
    method Find(f: E -> bool) returns (r: Option<E>)
      ensures r.None? <==> forall i :: 0 <= i < |elements| ==> !f(elements[i])
      ensures r.Some? ==>
        exists i :: 0 <= i < |elements| && elements[i] == r.value && f(r.value)
          && (forall j :: 0 <= j < i ==> !f(elements[j]))
      ensures r == if Filtered(elements, f) == [] then None else Some(Filtered(elements, f)[0])
    {
      var i := 0;
      while i < |elements|
        invariant i <= |elements|
        invariant forall j :: 0 <= j < i ==> !f(elements[j])
        invariant Filtered(elements, f) == Filtered(elements[i..], f)
      {
        assert elements[i..][0] == elements[i] && elements[i..][1..] == elements[i + 1..];
        if f(elements[i]) {
          return Some(elements[i]);
        }
        i := i + 1;
      }
      return None;
    }

    /** `filter(func)`: does not change the aggregate. */
    function Filter(f: E -> bool): (r: seq<E>)
      reads this
      ensures |r| <= Size()
      ensures forall x :: x in r ==> f(x) && x in elements
      ensures forall x :: x in elements && f(x) ==> multiset(r)[x] == multiset(elements)[x]
    {
      FilteredContents(elements, f);
      Filtered(elements, f)
    }
  }

  lemma InsertOneBeforeThree()
    ensures OrderedInsert([3], Identity, 1) == [1, 3]
  {
    assert FirstGreater([3], Identity, Identity(1)) == 0;
    assert [3][..0] == [] && [3][0..] == [3];
  }

  lemma InsertTwoBetween()
    ensures OrderedInsert([1, 3], Identity, 2) == [1, 2, 3]
  {
    assert FirstGreater([1, 3], Identity, Identity(2)) == 1 by {
      assert [1, 3][1..] == [3];
      assert FirstGreater([3], Identity, Identity(2)) == 0;
    }
    assert InsertAt([1, 3], 1, 2) == [1, 2, 3] by {
      assert [1, 3][..1] == [1] && [1, 3][1..] == [3];
    }
  }

  /** The ordered-list script: 3, 1, 2 come out as 1, 2, 3 and `remove` then yields 1. */
  method OrderedListScenario() {
    var l := new Aggregate<int>(Ordered(Identity));
    var o := l.Add(3);
    assert l.elements == [3];
    InsertOneBeforeThree();
    o := l.Add(1);
    assert l.elements == [1, 3];
    AddTwoBetween(l);
    DrainOrderedList(l);
  }

  /** 2 lands between 1 and 3. */
  method AddTwoBetween(l: Aggregate<int>)
    requires l.Valid() && l.policy == Ordered(Identity) && l.elements == [1, 3]
    modifies l
    ensures l.Valid() && l.elements == [1, 2, 3]
  {
    InsertTwoBetween();
    var o := l.Add(2);
  }

  /** The end of the ordered-list script: `remove` yields 1, then 2 and 3 remain. */
  method DrainOrderedList(l: Aggregate<int>)
    requires l.Valid() && l.elements == [1, 2, 3]
    modifies l
  {
    var r := l.Remove();
    assert r == Success(1);
    var all := l.RemoveAll();
    assert all == [2, 3] && l.IsEmpty();
  }

  /** The no-repetition script: adding 47 a second time leaves the list as it was. */
  method NoRepeatScenario(l: Aggregate<int>)
    requires l.Valid() && l.policy.OrderedNoRepeat? && l.elements == [47, 23]
    modifies l
  {
    var o := l.Add(47);
    assert l.elements == [47, 23];
  }

  /** The queue and stack: FIFO and LIFO removal order. */
  method QueueStackScenario(x: int, y: int) {
    var q := new Aggregate<int>(Fifo);
    var o := q.Add(x);
    o := q.Add(y);
    var r := q.Remove();
    assert r == Success(x);
    var st := new Aggregate<int>(Lifo);
    o := st.Add(x);
    o := st.Add(y);
    r := st.Remove();
    assert r == Success(y);
  }

  /** The bounded-queue script: capacity 3, the fourth add overflows, a removal makes room. */
  method BoundedScenario() {
    var bad := Aggregate<string>.NewBounded(0);
    assert bad.Failure?;
    var made := Aggregate<string>.NewBounded(3);
    var q := made.value;
    var o := q.Add("Tarea 1");
    assert q.elements == ["Tarea 1"];
    o := q.Add("Tarea 2");
    assert q.elements == ["Tarea 1", "Tarea 2"];
    FillBoundedQueue(q);
  }

  /** The third task fills the queue and the fourth overflows, leaving it as it was. */
  method FillBoundedQueue(q: Aggregate<string>)
    requires q.Valid() && q.policy == Bounded(3) && q.elements == ["Tarea 1", "Tarea 2"]
    modifies q
  {
    var o := q.Add("Tarea 3");
    assert o == Pass && q.elements == ["Tarea 1", "Tarea 2", "Tarea 3"];
    o := q.Add("Tarea 4");
    assert o == Fail(Overflow) && q.elements == ["Tarea 1", "Tarea 2", "Tarea 3"];
    MakeRoom(q);
  }

  /** Removing the first task makes room for the fourth. */
  method MakeRoom(q: Aggregate<string>)
    requires q.Valid() && q.policy == Bounded(3) && q.elements == ["Tarea 1", "Tarea 2", "Tarea 3"]
    modifies q
  {
    var r := q.Remove();
    assert r == Success("Tarea 1");
    var o := q.Add("Tarea 4");
    assert o == Pass && q.elements == ["Tarea 2", "Tarea 3", "Tarea 4"];
  }
}
