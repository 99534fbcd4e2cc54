/**
 * The component pool: a factory keeps a vector of shared component pointers,
 * hands out new components and accepts or drops existing ones.
 *
 * A shared pointer is a nullable reference `Component?`; two shared pointers
 * compare equal when they point at the same object, which is reference
 * equality here.
 */
module Components {
  import opened Naming

  /** A component: a scene object whose base name defaults to "Component". */
  class Component {
    const name: string

    constructor (base: string, counter: NameCounter)
      requires counter.Valid()
      modifies counter
      ensures counter.Valid()
      ensures name == ObjectName(base, old(counter.value))
      ensures counter.value == (old(counter.value) + 1) % UINT64_LIMIT
    {
      var n := counter.NextName(base);
      name := n;
    }
  }

  /** The pointers of `s` that are not `c`, in their original order. */
  function Without(s: seq<Component?>, c: Component?): (r: seq<Component?>)
    ensures |r| <= |s|
  {
    if s == [] then []
    else if s[|s| - 1] == c then Without(s[..|s| - 1], c)
    else Without(s[..|s| - 1], c) + [s[|s| - 1]]
  }

  /** What a moved-from range holds after `std::remove`: the matches stay, every other slot was moved out and is null. */
  function Leftover(s: seq<Component?>, c: Component?): (r: seq<Component?>)
    ensures |r| == |s|
    ensures forall j :: 0 <= j < |s| ==> r[j] == if s[j] == c then c else null
  {
    if s == [] then [] else Leftover(s[..|s| - 1], c) + [if s[|s| - 1] == c then c else null]
  }

  /** The number of entries of `s` equal to `c`. */
  function Occurrences(s: seq<Component?>, c: Component?): nat {
    if s == [] then 0 else Occurrences(s[..|s| - 1], c) + (if s[|s| - 1] == c then 1 else 0)
  }

  /** `Without` keeps exactly the other pointers: membership and length. */
  lemma {:induction false} WithoutMembers(s: seq<Component?>, c: Component?)
    ensures forall x: Component? :: x in Without(s, c) ==> x in s && x != c
    ensures forall x: Component? :: x in s && x != c ==> x in Without(s, c)
    ensures |Without(s, c)| == |s| - Occurrences(s, c)
  {
    if s != [] {
      WithoutMembers(s[..|s| - 1], c);
      assert s == s[..|s| - 1] + [s[|s| - 1]];
    }
  }

  /** Without a match nothing is dropped. */
  lemma {:induction false} WithoutNoMatch(s: seq<Component?>, c: Component?)
    requires c !in s
    ensures Without(s, c) == s
  {
    if s != [] {
      WithoutNoMatch(s[..|s| - 1], c);
      assert s == s[..|s| - 1] + [s[|s| - 1]];
    }
  }

  /** `c` occurs a positive number of times exactly when it is in `s`. */
  lemma {:induction false} OccursIffIn(s: seq<Component?>, c: Component?)
    ensures Occurrences(s, c) > 0 <==> c in s
  {
    if s != [] {
      OccursIffIn(s[..|s| - 1], c);
      assert s == s[..|s| - 1] + [s[|s| - 1]];
    }
  }

  /** `Without` of a longer prefix: one more element is either dropped or appended. */
  lemma WithoutSnoc(s: seq<Component?>, i: nat, c: Component?)
    requires i < |s|
    ensures Without(s[..i + 1], c) ==
            if s[i] == c then Without(s[..i], c) else Without(s[..i], c) + [s[i]]
  {
    assert s[..i + 1][..i] == s[..i];
  }

  /** The state `std::remove(v.begin(), v.end(), c)` leaves behind, with no `erase` after it. */
  function RemovedInPlace(s: seq<Component?>, c: Component?): (r: seq<Component?>)
    ensures |r| == |s|
  {
    var kept := Without(s, c);
    kept + Leftover(s[|kept|..], c)
  }

  /** After `std::remove` the other pointers come first, in order, and no slot holds a pointer that was not there. */
  lemma RemovedInPlaceShape(s: seq<Component?>, c: Component?)
    ensures var r := RemovedInPlace(s, c);
            r[..|Without(s, c)|] == Without(s, c) &&
            (forall j :: |Without(s, c)| <= j < |s| ==> r[j] == c || r[j] == null) &&
            (forall x: Component? :: x in r ==> x in s || x == null)
  {
    WithoutMembers(s, c);
    var kept := Without(s, c);
    var r := RemovedInPlace(s, c);
    assert r[..|kept|] == kept;
    forall x: Component? | x in r
      ensures x in s || x == null
    {
      var j :| 0 <= j < |r| && r[j] == x;
      if j < |kept| {
        assert r[j] == r[..|kept|][j] == kept[j];
        assert kept[j] in kept;
      } else {
        var rest := s[|kept|..];
        assert r[j] == Leftover(rest, c)[j - |kept|];
        assert rest[j - |kept|] == s[j] && s[j] in s;
      }
    }
  }

  /** `ComponentFactory`: itself a scene object, holding the vector `mComponents`. */
  class ComponentFactory {
    const name: string
    var components: seq<Component?>

    /** The factory is a scene object built with the default empty base. */
    constructor (counter: NameCounter)
      requires counter.Valid()
      modifies counter
      ensures counter.Valid()
      ensures name == ObjectName("", old(counter.value))
      ensures counter.value == (old(counter.value) + 1) % UINT64_LIMIT
      ensures components == []
    {
      var n := counter.NextName("");
      name := n;
      components := [];
    }

    /** Does nothing. */
    method Setup()
      ensures components == old(components)
    {
    }

    /** Does nothing with the elapsed time. */
    method Update(elapsed: real)
      ensures components == old(components)
    {
    }

    /** Builds a new component named after `base`, appends it and returns it. */
    method Instantiate(base: string, counter: NameCounter) returns (comp: Component)
      requires counter.Valid()
      modifies this, counter
      ensures counter.Valid()
      ensures fresh(comp)
      ensures comp.name == ObjectName(base, old(counter.value))
      ensures counter.value == (old(counter.value) + 1) % UINT64_LIMIT
      ensures components == old(components) + [comp]
      ensures comp !in old(components)
    {
      comp := new Component(base, counter);
      components := components + [comp];
    }

    /** Refuses the null pointer; any other pointer is appended, even one already present. */
    method AddComponent(comp: Component?) returns (added: bool)
      modifies this
      ensures added <==> comp != null
      ensures components == if comp == null then old(components) else old(components) + [comp]
    {
      if comp == null {
        return false;
      }
      components := components + [comp];
      return true;
    }

    /**
     * Refuses the null pointer. Otherwise runs `std::remove` over the vector
     * and compares the size before and after; without an `erase` the size
     * never changes, so the answer is always false.
     */
    method RemoveComponent(comp: Component?) returns (removed: bool)
      modifies this
      ensures !removed
      ensures |components| == |old(components)|
      ensures components == if comp == null then old(components) else RemovedInPlace(old(components), comp)
    {
      if comp == null {
        return false;
      }
      var size := |components|;
      RemoveAll(comp);
      removed := size != |components|;
    }

    /**
     * `removeComponent` as its boolean result intends it: the erase-remove
     * idiom, so the matches leave the vector and the answer says whether
     * there were any.
     */
    method EraseComponent(comp: Component?) returns (removed: bool)
      modifies this
      ensures components == if comp == null then old(components) else Without(old(components), comp)
      ensures removed <==> comp != null && comp in old(components)
    {
      if comp == null {
        return false;
      }
      ghost var s := components;
      var size := |components|;
      var kept := |Without(components, comp)|;
      RemoveAll(comp);
      RemovedInPlaceShape(s, comp);
      components := components[..kept];
      WithoutMembers(s, comp);
      OccursIffIn(s, comp);
      removed := size != |components|;
    }

    /**
     * `std::remove`: find the first match, then move every later non-match
     * down to the write position; a moved-from shared pointer is null.
     */
    method RemoveAll(c: Component?)
      modifies this
      ensures components == RemovedInPlace(old(components), c)
    {
      var v := components;
      var n := |v|;
      var first := FirstMatch(v, c);
      if first == n {
        NoMatchKept(v, c);
        return;
      }
      RemoveStart(v, c, first);
      ghost var s := v;
      var write: nat := first;
      var read: nat := first + 1;
      while read < n
        invariant RemoveInvariant(v, s, c, write, read)
      {
        RemoveStep(v, s, c, write, read);
        if v[read] != c {
          v := v[write := v[read]][read := null];
          write := write + 1;
        }
        read := read + 1;
      }
      RemoveDone(v, s, c, write);
      components := v;
    }
  }

  /** The scan `std::remove` starts with: the position of the first `c`, or the length when there is none. */
  method FirstMatch(v: seq<Component?>, c: Component?) returns (first: nat)
    ensures first <= |v| && c !in v[..first] && (first < |v| ==> v[first] == c)
  {
    first := 0;
    while first < |v| && v[first] != c
      invariant first <= |v|
      invariant c !in v[..first]
    {
      assert v[..first + 1] == v[..first] + [v[first]];
      first := first + 1;
    }
  }

  /** The loop state of `std::remove` once positions `..read` have been scanned and `..write` written. */
  ghost predicate RemoveInvariant(v: seq<Component?>, s: seq<Component?>, c: Component?, write: nat, read: nat) {
    write < read <= |s| && |v| == |s| &&
    v[..write] == Without(s[..read], c) &&
    (forall j :: write <= j < read ==> v[j] == if s[j] == c then c else null) &&
    v[read..] == s[read..]
  }

  /** With no `c` in the vector, `std::remove` leaves it as it was. */
  lemma NoMatchKept(v: seq<Component?>, c: Component?)
    requires c !in v
    ensures RemovedInPlace(v, c) == v
  {
    WithoutNoMatch(v, c);
    assert Leftover([], c) == [];
  }

  /** Past the first `c` the invariant holds with one element read and none written beyond it. */
  lemma RemoveStart(v: seq<Component?>, c: Component?, first: nat)
    requires first < |v| && c !in v[..first] && v[first] == c
    ensures RemoveInvariant(v, v, c, first, first + 1)
  {
    WithoutNoMatch(v[..first], c);
    WithoutSnoc(v, first, c);
  }

  /** One scan step keeps the invariant. */
  lemma RemoveStep(v: seq<Component?>, s: seq<Component?>, c: Component?, write: nat, read: nat)
    requires RemoveInvariant(v, s, c, write, read) && read < |s|
    ensures v[read] == s[read]
    ensures v[read] != c ==> RemoveInvariant(v[write := v[read]][read := null], s, c, write + 1, read + 1)
    ensures v[read] == c ==> RemoveInvariant(v, s, c, write, read + 1)
  {
    assert v[read] == v[read..][0] == s[read..][0];
    WithoutSnoc(s, read, c);
    if v[read] != c {
      var v' := v[write := v[read]][read := null];
      assert v'[..write + 1] == v[..write] + [s[read]];
      assert v'[read + 1..] == v[read + 1..];
      assert v[read + 1..] == v[read..][1..];
    } else {
      assert v[read + 1..] == v[read..][1..];
    }
  }

  /** At the end of the scan the vector is what `RemovedInPlace` describes. */
  lemma RemoveDone(v: seq<Component?>, s: seq<Component?>, c: Component?, write: nat)
    requires RemoveInvariant(v, s, c, write, |s|)
    ensures v == RemovedInPlace(s, c)
  {
    assert s[..|s|] == s;
    WithoutMembers(s, c);
    assert v[write..] == Leftover(s[write..], c);
    assert v == v[..write] + v[write..];
  }

  /**
   * Removing the component just added does not take it out: the pool still
   * ends with it, and the answer is false although it was there.
   */
  method AddThenRemove(f: ComponentFactory, comp: Component) returns (removed: bool)
    requires comp !in f.components
    modifies f
    ensures f.components == old(f.components) + [comp]
    ensures !removed && comp in f.components
  {
    ghost var s := f.components;
    var added := f.AddComponent(comp);
    removed := f.RemoveComponent(comp);
    RemovedInPlaceShape(s + [comp], comp);
    WithoutNoMatch(s, comp);
    assert (s + [comp])[..|s|] == s;
    WithoutSnoc(s + [comp], |s|, comp);
    WithoutMembers(s + [comp], comp);
  }
}
