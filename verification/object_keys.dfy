/**
 * The order in which `Object.keys` lists an ordinary object's own string keys
 * (the OrdinaryOwnPropertyKeys operation of ECMA-262): first every key that is
 * an array index, in ascending numeric order, then the remaining string keys in
 * the order they were created. The format tabs are rendered in this order.
 */
module ObjectKeys {

  predicate IsDigit(c: char)
  {
    '0' <= c <= '9'
  }

  function DigitValue(c: char): (d: nat)
  {
    if IsDigit(c) then (c as int - '0' as int) as nat else 0
  }

  /** The decimal value of a digit string (characters other than digits count as 0). */
  function NumericValue(k: string): (v: nat)
    decreases |k|
  {
    if |k| == 0 then 0 else NumericValue(k[..|k| - 1]) * 10 + DigitValue(k[|k| - 1])
  }

  /**
   * A canonical decimal string for an integer below 2^32 - 1: non-empty,
   * digits only, and no leading zero unless it is "0".
   */
  predicate IsArrayIndex(k: string)
  {
    && |k| > 0
    && (forall i :: 0 <= i < |k| ==> IsDigit(k[i]))
    && (k[0] != '0' || |k| == 1)
    && NumericValue(k) < 0xFFFF_FFFF
  }

  /** Ascending by numeric value. */
  predicate Ascending(s: seq<string>)
  {
    forall i, j :: 0 <= i < j < |s| ==> NumericValue(s[i]) <= NumericValue(s[j])
  }

  /** The array-index keys of `decl`, in declaration order. */
  function IndexKeys(decl: seq<string>): (r: seq<string>)
    ensures forall x :: x in r <==> x in decl && IsArrayIndex(x)
    decreases |decl|
  {
    if |decl| == 0 then []
    else if IsArrayIndex(decl[0]) then [decl[0]] + IndexKeys(decl[1..])
    else IndexKeys(decl[1..])
  }

  /** `sub` is `s` with some entries left out, the rest kept in their order. */
  predicate IsSubsequence(sub: seq<string>, s: seq<string>)
    decreases |s|
  {
    if |sub| == 0 then true
    else if |s| == 0 then false
    else (sub[0] == s[0] && IsSubsequence(sub[1..], s[1..])) || IsSubsequence(sub, s[1..])
  }

  /** The other keys of `decl`, in declaration order. */
  function NamedKeys(decl: seq<string>): (r: seq<string>)
    ensures forall x :: x in r <==> x in decl && !IsArrayIndex(x)
    ensures IsSubsequence(r, decl)
    decreases |decl|
  {
    if |decl| == 0 then []
    else if IsArrayIndex(decl[0]) then NamedKeys(decl[1..])
    else [decl[0]] + NamedKeys(decl[1..])
  }

  /** Splitting the keys into the two groups loses and duplicates nothing. */
  lemma {:induction false} SplitKeepsKeys(decl: seq<string>)
    ensures multiset(IndexKeys(decl)) + multiset(NamedKeys(decl)) == multiset(decl)
    decreases |decl|
  {
    if |decl| > 0 {
      SplitKeepsKeys(decl[1..]);
      assert decl == [decl[0]] + decl[1..];
    }
  }

  /** Inserts `k` into an ascending list before the first larger value. */
  function Insert(k: string, s: seq<string>): (r: seq<string>)
    ensures multiset(r) == multiset(s) + multiset{k}
    ensures Ascending(s) ==> Ascending(r)
    decreases |s|
  {
    if |s| == 0 then [k]
    else if NumericValue(k) <= NumericValue(s[0]) then
      ConsSmallest(k, s);
      [k] + s
    else
      var rest := Insert(k, s[1..]);
      assert s == [s[0]] + s[1..];
      assert forall x :: x in rest ==> x == k || x in s[1..] by {
        forall x | x in rest ensures x == k || x in s[1..] {
          assert x in multiset(rest);
        }
      }
      InsertStep(k, s, rest);
      [s[0]] + rest
  }

  /** The tail of an ascending list is ascending and bounded below by the head. */
  lemma AscendingTail(s: seq<string>)
    requires |s| > 0 && Ascending(s)
    ensures Ascending(s[1..])
    ensures forall x :: x in s[1..] ==> NumericValue(s[0]) <= NumericValue(x)
  {
    forall x | x in s[1..] ensures NumericValue(s[0]) <= NumericValue(x) {
      var j :| 0 <= j < |s[1..]| && s[1..][j] == x;
      assert s[j + 1] == x;
    }
  }

  /** An element no larger than any element of an ascending list can be put in front. */
  lemma AscendingCons(k: string, s: seq<string>)
    requires Ascending(s)
    requires forall m :: 0 <= m < |s| ==> NumericValue(k) <= NumericValue(s[m])
    ensures Ascending([k] + s)
  {
    var t := [k] + s;
    forall i, j | 0 <= i < j < |t| ensures NumericValue(t[i]) <= NumericValue(t[j]) {
      assert t[j] == s[j - 1];
      if i > 0 {
        assert t[i] == s[i - 1];
      }
    }
  }

  lemma ConsSmallest(k: string, s: seq<string>)
    requires |s| > 0 && NumericValue(k) <= NumericValue(s[0])
    ensures Ascending(s) ==> Ascending([k] + s)
  {
    if Ascending(s) {
      AscendingTail(s);
      forall m | 0 <= m < |s| ensures NumericValue(k) <= NumericValue(s[m]) {
        if m > 0 {
          assert s[m] in s[1..];
        }
      }
      AscendingCons(k, s);
    }
  }

  lemma InsertStep(k: string, s: seq<string>, rest: seq<string>)
    requires |s| > 0 && NumericValue(k) > NumericValue(s[0])
    requires forall x :: x in rest ==> x == k || x in s[1..]
    requires Ascending(s[1..]) ==> Ascending(rest)
    ensures Ascending(s) ==> Ascending([s[0]] + rest)
  {
    if Ascending(s) {
      AscendingTail(s);
      forall m | 0 <= m < |rest| ensures NumericValue(s[0]) <= NumericValue(rest[m]) {
        assert rest[m] in rest;
      }
      AscendingCons(s[0], rest);
    }
  }

  /** Insertion sort by numeric value. */
  function Sort(s: seq<string>): (r: seq<string>)
    ensures multiset(r) == multiset(s)
    ensures Ascending(r)
    decreases |s|
  {
    if |s| == 0 then []
    else
      assert s == [s[0]] + s[1..];
      Insert(s[0], Sort(s[1..]))
  }

  /**
   * `Object.keys` of an object whose keys were created in the order `decl`
   * (each key once, since a property is created only once):
   * the same keys, array indices first and ascending, then the rest in
   * declaration order.
   */
  function OwnKeys(decl: seq<string>): (r: seq<string>)
    ensures multiset(r) == multiset(decl)
    ensures forall i, j :: 0 <= i < j < |r| && IsArrayIndex(r[j]) ==> IsArrayIndex(r[i])
    ensures forall i, j :: 0 <= i < j < |r| && IsArrayIndex(r[j]) ==> NumericValue(r[i]) <= NumericValue(r[j])
  {
    var idx := Sort(IndexKeys(decl));
    var named := NamedKeys(decl);
    SplitKeepsKeys(decl);
    assert forall x :: x in idx ==> IsArrayIndex(x) by {
      forall x | x in idx ensures IsArrayIndex(x) {
        assert x in multiset(IndexKeys(decl));
      }
    }
    IndicesFirst(idx, named);
    idx + named
  }

  /**
   * The keys that are not array indices close the list, in declaration order:
   * the last `|NamedKeys(decl)|` entries of `Object.keys` are exactly those keys.
   */
  lemma NamedKeysLast(decl: seq<string>)
    ensures var r := OwnKeys(decl);
      |NamedKeys(decl)| <= |r| && r[|r| - |NamedKeys(decl)|..] == NamedKeys(decl) &&
      IsSubsequence(r[|r| - |NamedKeys(decl)|..], decl)
  {
    var idx := Sort(IndexKeys(decl));
    var named := NamedKeys(decl);
    assert OwnKeys(decl) == idx + named;
    assert (idx + named)[|idx|..] == named;
  }

  /** Gluing the sorted index keys before the named keys puts them in the required order. */
  lemma IndicesFirst(idx: seq<string>, named: seq<string>)
    requires Ascending(idx)
    requires forall x :: x in idx ==> IsArrayIndex(x)
    requires forall x :: x in named ==> !IsArrayIndex(x)
    ensures var r := idx + named;
      forall i, j :: 0 <= i < j < |r| && IsArrayIndex(r[j]) ==>
        IsArrayIndex(r[i]) && NumericValue(r[i]) <= NumericValue(r[j])
  {
    var r := idx + named;
    forall i, j | 0 <= i < j < |r| && IsArrayIndex(r[j])
      ensures IsArrayIndex(r[i]) && NumericValue(r[i]) <= NumericValue(r[j])
    {
      if j >= |idx| {
        assert false;
      }
      assert r[i] == idx[i] && r[j] == idx[j];
      assert r[i] in idx;
    }
  }
}
