/**
 * The double-colon separated USB address strings of NXTCommUSB (getAddressString): field
 * `loc` counted from 1 at the front, or from -1 at the back. The search primitives are
 * Java's String.indexOf and String.lastIndexOf for the separator "::".
 */
module UsbAddress {
  import opened Results

  /** Whether the separator "::" starts at position k of s. */
  predicate SepAt(s: string, k: int)
  {
    0 <= k && k + 2 <= |s| && s[k] == ':' && s[k + 1] == ':'
  }

  /** indexOf("::", from) for from >= 0: the first separator at or after `from`, or -1. */
  function IndexOf(s: string, from: nat): (r: int)
    ensures r == -1 || (from <= r && SepAt(s, r))
    ensures forall k :: from <= k && (r == -1 || k < r) ==> !SepAt(s, k)
    decreases |s| - from
  {
    if from + 2 > |s| then -1
    else if SepAt(s, from) then from
    else IndexOf(s, from + 1)
  }

  /** The last separator starting at or before k, or -1. */
  function LastFrom(s: string, k: int): (r: int)
    ensures r == -1 || (0 <= r <= k && SepAt(s, r))
    ensures forall j :: r < j <= k ==> !SepAt(s, j)
    decreases k + 1
  {
    if k < 0 then -1
    else if SepAt(s, k) then k
    else LastFrom(s, k - 1)
  }

  /** lastIndexOf("::", from): the search starts no later than the last position a separator fits. */
  function LastIndexOf(s: string, from: int): int
  {
    LastFrom(s, if from < |s| - 2 then from else |s| - 2)
  }

  /** The forward loop of getAddressString: `start` is the beginning of the current field. */
  function Forward(addr: string, start: nat, loc: int): (r: Option<string>)
    ensures r.Some? ==> |r.value| <= |addr|
    decreases |addr| - start
  {
    var e := IndexOf(addr, start);
    var end := if e < 0 then |addr| else e;
    if start > end then None
    else if loc - 1 <= 0 then Some(addr[start..end])
    else if end >= |addr| then None
    else Forward(addr, end + 2, loc - 1)
  }

  /** The backward loop of getAddressString: `end` is the end of the current field. */
  function Backward(addr: string, end: nat, loc: int): (r: Option<string>)
    requires end <= |addr|
    ensures r.Some? ==> |r.value| <= |addr|
    decreases end
  {
    var found := LastIndexOf(addr, end - 2) + 2;
    var start := if found < 2 then 0 else found;
    if loc + 1 >= 0 then (if start > end then None else Some(addr[start..end]))
    else if start <= 0 then None
    else Backward(addr, start - 2, loc + 1)
  }

  /** getAddressString(addr, loc); None stands for null, and for the null or empty address. */
  function GetAddressString(addr: string, loc: int): (r: Option<string>)
    ensures |addr| == 0 ==> r == None
    ensures r.Some? ==> |r.value| <= |addr|
  {
    if |addr| == 0 then None
    else if loc < 0 then Backward(addr, |addr|, loc)
    else Forward(addr, 0, loc)
  }

  // ---------------------------------------------------------------------------------------
  // Reference: an address assembled from its fields

  predicate ColonFree(s: string)
  {
    forall i :: 0 <= i < |s| ==> s[i] != ':'
  }

  /** The fields joined with "::". */
  function Join(fs: seq<string>): string
    requires |fs| > 0
  {
    if |fs| == 1 then fs[0] else fs[0] + "::" + Join(fs[1..])
  }

  lemma {:induction false} JoinBack(fs: seq<string>)
    requires |fs| >= 2
    ensures Join(fs) == Join(fs[..|fs| - 1]) + "::" + fs[|fs| - 1]
    decreases |fs|
  {
    if |fs| > 2 {
      JoinBack(fs[1..]);
      assert fs[1..][..|fs[1..]| - 1] == fs[..|fs| - 1][1..];
      assert fs[1..][|fs[1..]| - 1] == fs[|fs| - 1];
    } else {
      assert fs[..1] == [fs[0]];
    }
  }

  /** In a colon-free field followed by a separator, the first separator is the one after the field. */
  lemma {:induction false} IndexOfAfterField(x: string, y: string, k: nat)
    requires ColonFree(x) && k <= |x|
    ensures IndexOf(x + "::" + y, k) == |x|
    decreases |x| - k
  {
    var s := x + "::" + y;
    if k < |x| {
      assert s[k] == x[k];
      IndexOfAfterField(x, y, k + 1);
    } else {
      assert SepAt(s, k);
    }
  }

  lemma IndexOfColonFree(x: string, k: nat)
    requires ColonFree(x)
    ensures IndexOf(x, k) == -1
  {
  }

  /** Searching from inside the suffix of p + s finds what searching s finds, shifted. */
  lemma {:induction false} IndexOfShift(p: string, s: string, k: nat)
    ensures IndexOf(p + s, |p| + k) == (if IndexOf(s, k) < 0 then -1 else |p| + IndexOf(s, k))
    decreases |s| - k
  {
    var t := p + s;
    if |p| + k + 2 <= |t| {
      assert SepAt(t, |p| + k) <==> SepAt(s, k) by {
        if |p| + k + 2 <= |t| {
          assert t[|p| + k] == s[k] && t[|p| + k + 1] == s[k + 1];
        }
      }
      if !SepAt(s, k) {
        IndexOfShift(p, s, k + 1);
      }
    }
  }

  lemma {:induction false} ForwardShift(p: string, s: string, k: nat, loc: int)
    ensures Forward(p + s, |p| + k, loc) == Forward(s, k, loc)
    decreases |s| - k
  {
    var t := p + s;
    IndexOfShift(p, s, k);
    var e := IndexOf(s, k);
    var end := if e < 0 then |s| else e;
    if k <= end && loc - 1 <= 0 {
      assert t[|p| + k..|p| + end] == s[k..end];
    }
    if k <= end && loc - 1 > 0 && end < |s| {
      ForwardShift(p, s, end + 2, loc - 1);
    }
  }

  /** Counting from the front selects the loc-th field; 0 behaves as 1; past the last field there is none. */
  lemma {:induction false} ForwardSelectsField(fs: seq<string>, loc: int)
    requires |fs| > 0 && forall i :: 0 <= i < |fs| ==> ColonFree(fs[i])
    ensures Forward(Join(fs), 0, loc) ==
      if loc <= 1 then Some(fs[0]) else if loc <= |fs| then Some(fs[loc - 1]) else None
    decreases |fs|
  {
    var j := Join(fs);
    if |fs| == 1 {
      IndexOfColonFree(fs[0], 0);
      assert j[0..|j|] == fs[0];
    } else {
      IndexOfAfterField(fs[0], Join(fs[1..]), 0);
      assert j[0..|fs[0]|] == fs[0];
      if loc > 1 {
        var p := fs[0] + "::";
        assert j == p + Join(fs[1..]);
        ForwardShift(p, Join(fs[1..]), 0, loc - 1);
        ForwardSelectsField(fs[1..], loc - 1);
      }
    }
  }

  lemma {:induction false} LastFromPrefix(x: string, t: string, k: int)
    requires k <= |x| - 2
    ensures LastFrom(x + t, k) == LastFrom(x, k)
    decreases k + 1
  {
    if k >= 0 {
      assert SepAt(x + t, k) <==> SepAt(x, k) by {
        assert (x + t)[k] == x[k] && (x + t)[k + 1] == x[k + 1];
      }
      LastFromPrefix(x, t, k - 1);
    }
  }

  lemma {:induction false} BackwardPrefix(x: string, t: string, end: nat, loc: int)
    requires end <= |x|
    ensures Backward(x + t, end, loc) == Backward(x, end, loc)
    decreases end
  {
    LastFromPrefix(x, t, end - 2);
    var found := LastFrom(x, end - 2) + 2;
    var start := if found < 2 then 0 else found;
    if loc + 1 < 0 && start > 0 {
      BackwardPrefix(x, t, start - 2, loc + 1);
    }
    BackwardPrefixStep(x, t, end, loc, start);
  }

  /** One step of BackwardPrefix: both searches find the same field start, and the rest follows. */
  lemma BackwardPrefixStep(x: string, t: string, end: nat, loc: int, start: int)
    requires end <= |x|
    requires LastFrom(x + t, end - 2) == LastFrom(x, end - 2)
    requires start == (if LastFrom(x, end - 2) + 2 < 2 then 0 else LastFrom(x, end - 2) + 2)
    requires loc + 1 < 0 && start > 0 ==> Backward(x + t, start - 2, loc + 1) == Backward(x, start - 2, loc + 1)
    ensures Backward(x + t, end, loc) == Backward(x, end, loc)
  {
    BackwardFrom(x + t, end, loc, start);
    BackwardFrom(x, end, loc, start);
    if loc + 1 >= 0 && start <= end {
      SliceOfPrefix(x, t, start, end);
    }
  }

  lemma SliceOfPrefix(x: string, t: string, i: int, j: int)
    requires 0 <= i <= j <= |x|
    ensures (x + t)[i..j] == x[i..j]
  {
  }

  /** One step of the backward loop, given where the field ending at `end` starts. */
  lemma BackwardFrom(s: string, end: nat, loc: int, start: int)
    requires end <= |s|
    requires start == (if LastFrom(s, end - 2) + 2 < 2 then 0 else LastFrom(s, end - 2) + 2)
    ensures Backward(s, end, loc) ==
      if loc + 1 >= 0 then (if start > end then None else Some(s[start..end]))
      else if start <= 0 then None
      else Backward(s, start - 2, loc + 1)
  {
    assert LastIndexOf(s, end - 2) == LastFrom(s, end - 2);
  }

  /** In x + "::" + y with y colon-free, the last separator before the end is the one before y. */
  lemma {:induction false} LastFromBeforeField(x: string, y: string, k: int)
    requires ColonFree(y) && |x| <= k <= |x| + |y|
    ensures LastFrom(x + "::" + y, k) == |x|
    decreases k
  {
    var s := x + "::" + y;
    if k > |x| {
      assert !SepAt(s, k) by {
        if k + 2 <= |s| { assert s[k + 1] == y[k + 1 - |x| - 2]; }
        if k + 1 <= |s| - 1 && k + 2 > |s| { }
      }
      LastFromBeforeField(x, y, k - 1);
    } else {
      assert SepAt(s, k);
    }
  }

  lemma LastFromColonFree(y: string, k: int)
    requires ColonFree(y)
    ensures LastFrom(y, k) == -1
  {
  }

  /** Counting from the back selects the field -loc places from the end; before the first there is none. */
  lemma {:induction false} BackwardSelectsField(fs: seq<string>, loc: int)
    requires |fs| > 0 && forall i :: 0 <= i < |fs| ==> ColonFree(fs[i])
    requires loc < 0
    ensures Backward(Join(fs), |Join(fs)|, loc) ==
      if -loc <= |fs| then Some(fs[|fs| + loc]) else None
    decreases |fs|
  {
    var n := |fs|;
    if n == 1 {
      var j := Join(fs);
      LastFromColonFree(fs[0], |j| - 2);
      BackwardFrom(j, |j|, loc, 0);
      assert j[0..|j|] == fs[0];
    } else if loc + 1 >= 0 {
      BackwardLastField(fs, loc);
    } else {
      BackwardDropLast(fs, loc);
      BackwardSelectsField(fs[..n - 1], loc + 1);
      BackwardFieldIndex(fs, fs[..n - 1], loc);
    }
  }

  /** The backward search starts at the separator before the last field. */
  lemma BackwardStart(fs: seq<string>)
    requires |fs| > 1 && ColonFree(fs[|fs| - 1])
    ensures Join(fs) == Join(fs[..|fs| - 1]) + "::" + fs[|fs| - 1]
    ensures LastFrom(Join(fs), |Join(fs)| - 2) == |Join(fs[..|fs| - 1])|
  {
    JoinBack(fs);
    LastFromBeforeField(Join(fs[..|fs| - 1]), fs[|fs| - 1], |Join(fs)| - 2);
  }

  /** Position -1 selects the last field. */
  lemma BackwardLastField(fs: seq<string>, loc: int)
    requires |fs| > 1 && ColonFree(fs[|fs| - 1]) && loc == -1
    ensures Backward(Join(fs), |Join(fs)|, loc) == Some(fs[|fs| - 1])
  {
    var j := Join(fs);
    var x := Join(fs[..|fs| - 1]);
    BackwardStart(fs);
    BackwardFrom(j, |j|, loc, |x| + 2);
    assert j[|x| + 2..|j|] == fs[|fs| - 1];
  }

  /** Stepping back over the last field leaves the address of the other fields. */
  lemma BackwardDropLast(fs: seq<string>, loc: int)
    requires |fs| > 1 && ColonFree(fs[|fs| - 1]) && loc < -1
    ensures Backward(Join(fs), |Join(fs)|, loc) == Backward(Join(fs[..|fs| - 1]), |Join(fs[..|fs| - 1])|, loc + 1)
  {
    var j := Join(fs);
    var x := Join(fs[..|fs| - 1]);
    var t := "::" + fs[|fs| - 1];
    BackwardStart(fs);
    BackwardFrom(j, |j|, loc, |x| + 2);
    assert j == x + t;
    BackwardPrefix(x, t, |x|, loc + 1);
  }

  lemma BackwardFieldIndex(fs: seq<string>, init: seq<string>, loc: int)
    requires |fs| > 1 && init == fs[..|fs| - 1] && loc < -1
    ensures (if -(loc + 1) <= |init| then Some(init[|init| + (loc + 1)]) else None) ==
      (if -loc <= |fs| then Some(fs[|fs| + loc]) else None)
  {
  }

  /**
   * getAddressString on an address assembled from colon-free fields: positive positions count
   * from the front (0 acting as 1), negative ones from the back, and a position past either end
   * yields null.
   */
  lemma AddressFieldSelection(fs: seq<string>, loc: int)
    requires |fs| > 0 && forall i :: 0 <= i < |fs| ==> ColonFree(fs[i])
    requires |Join(fs)| > 0
    ensures GetAddressString(Join(fs), loc) ==
      if 1 <= loc <= |fs| then Some(fs[loc - 1])
      else if loc == 0 then Some(fs[0])
      else if loc < 0 && -loc <= |fs| then Some(fs[|fs| + loc])
      else None
  {
    if loc < 0 {
      BackwardSelectsField(fs, loc);
    } else {
      ForwardSelectsField(fs, loc);
    }
  }
}
