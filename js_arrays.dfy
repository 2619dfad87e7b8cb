/**
 * The JavaScript array and string primitives the accessors rely on:
 * `Array.prototype.findIndex`, `Array.prototype.splice(start, 1)` and
 * `String.prototype.lastIndexOf` for a one-character needle.
 */
module JsArrays {

  /** `s.findIndex(p)`: the first index whose element satisfies `p`, or -1. */
  function FindIndex<T>(s: seq<T>, p: T -> bool): (r: int)
    ensures -1 <= r < |s|
    ensures r == -1 <==> forall i :: 0 <= i < |s| ==> !p(s[i])
    ensures 0 <= r ==> p(s[r]) && forall i :: 0 <= i < r ==> !p(s[i])
  {
    if s == [] then -1
    else if p(s[0]) then 0
    else
      var k := FindIndex(s[1..], p);
      if k == -1 then -1 else k + 1
  }

  /**
   * Where `splice(start, 1)` deletes: a negative start counts back from the
   * end and is clamped at 0; a start past the end is clamped to the length
   * (and then nothing is deleted).
   */
  function SpliceStart(len: nat, start: int): (k: nat)
    ensures k <= len
    ensures 0 <= start <= len ==> k == start
    ensures start < 0 && -start <= len ==> k == len + start
  {
    if start < 0 then (if len + start < 0 then 0 else len + start)
    else if start > len then len
    else start
  }

  /** `s.splice(start, 1)` applied to `s`: the array left behind. */
  function SpliceOne<T>(s: seq<T>, start: int): (r: seq<T>)
    ensures var k := SpliceStart(|s|, start);
      && |r| == (if k < |s| then |s| - 1 else |s|)
      && (forall i :: 0 <= i < k && i < |r| ==> r[i] == s[i])
      && (forall i :: k <= i < |r| ==> r[i] == s[i + 1])
    ensures multiset(r) <= multiset(s)
  {
    var k := SpliceStart(|s|, start);
    if k < |s| then
      assert s == s[..k] + [s[k]] + s[k + 1..];
      s[..k] + s[k + 1..]
    else s
  }

  /** `splice(-1, 1)`, what a failed `findIndex` leads to, drops the last element. */
  lemma SpliceNotFound<T>(s: seq<T>)
    ensures s != [] ==> SpliceOne(s, -1) == s[..|s| - 1]
    ensures s == [] ==> SpliceOne(s, -1) == []
  {
    if s != [] {
      var r := SpliceOne(s, -1);
      assert |r| == |s| - 1;
      assert forall i :: 0 <= i < |r| ==> r[i] == s[..|s| - 1][i];
    }
  }

  /**
   * Removing the element `findIndex` found: when some element satisfies the
   * predicate, the first such element is deleted and everything else stays.
   */
  lemma SpliceFound<T>(s: seq<T>, p: T -> bool, i: nat)
    requires i < |s| && p(s[i])
    ensures 0 <= FindIndex(s, p) <= i
    ensures multiset(SpliceOne(s, FindIndex(s, p))) + multiset{s[FindIndex(s, p)]} == multiset(s)
  {
    SpliceAt(s, FindIndex(s, p));
  }

  /** Deleting at an index inside the array removes that one element. */
  lemma SpliceAt<T>(s: seq<T>, k: nat)
    requires k < |s|
    ensures multiset(SpliceOne(s, k)) + multiset{s[k]} == multiset(s)
  {
    assert SpliceOne(s, k) == s[..k] + s[k + 1..];
    assert s == s[..k] + [s[k]] + s[k + 1..];
  }

  /** `s.lastIndexOf(c)`: the last index holding `c`, or -1. */
  function LastIndexOf(s: string, c: char): (r: int)
    ensures -1 <= r < |s|
    ensures r == -1 <==> c !in s
    ensures 0 <= r ==> s[r] == c && c !in s[r + 1..]
  {
    if s == [] then -1
    else if s[|s| - 1] == c then |s| - 1
    else
      var init := s[..|s| - 1];
      var r := LastIndexOf(init, c);
      assert c in s <==> c in init by {
        assert s == init + [s[|s| - 1]];
      }
      assert r >= 0 ==> c !in s[r + 1..] by {
        if r >= 0 {
          assert s[r + 1..] == init[r + 1..] + [s[|s| - 1]];
        }
      }
      r
  }
}
