/**
 * Label sets and the helpers of lib/utils.js: trim, hashObj, shallowClone,
 * checkValid and checkValidCollector, plus jsprim.mergeObjects as the library
 * uses it.
 *
 * A JavaScript object holding labels is an `Obj`: its own properties in
 * enumeration order, each key once. `ToMap` is what the object means as a
 * label set; two objects with the same pairs in another order have the same
 * `ToMap`.
 */
module Labels {
  import opened Common
  import Sorting

  /** A label value: string, number, boolean, or anything else (objects, null, undefined). */
  datatype Value = Str(s: string) | Num(n: real) | Bool(b: bool) | Other

  type Pair = (string, Value)

  predicate DistinctKeys(e: seq<Pair>) {
    forall i, j :: 0 <= i < j < |e| ==> e[i].0 != e[j].0
  }

  /** A plain JavaScript object: key/value pairs in enumeration order, keys distinct. */
  type Obj = e: seq<Pair> | DistinctKeys(e) witness []

  /** Assigning the pairs of `e` in order to a fresh object: a later pair wins. */
  function ToMap(e: seq<Pair>): map<string, Value>
  {
    if e == [] then map[] else map[e[0].0 := e[0].1] + ToMap(e[1..])
  }

  lemma {:induction false} KeyAt(e: seq<Pair>, i: nat)
    requires i < |e|
    ensures e[i].0 in ToMap(e)
  {
    if i > 0 { KeyAt(e[1..], i - 1); }
  }

  lemma {:induction false} KeyIndex(e: seq<Pair>, k: string) returns (i: nat)
    requires k in ToMap(e)
    ensures i < |e| && e[i].0 == k
  {
    if e[0].0 == k {
      i := 0;
    } else {
      var j := KeyIndex(e[1..], k);
      i := j + 1;
    }
  }

  lemma {:induction false} NotKey(e: seq<Pair>, k: string)
    requires forall i :: 0 <= i < |e| ==> e[i].0 != k
    ensures k !in ToMap(e)
  {
    if e != [] { NotKey(e[1..], k); }
  }

  lemma HeadNotInTail(e: Obj)
    requires e != []
    ensures e[0].0 !in ToMap(e[1..])
  {
    NotKey(e[1..], e[0].0);
  }

  lemma {:induction false} ToMapAppend(a: seq<Pair>, b: seq<Pair>)
    ensures ToMap(a + b) == ToMap(a) + ToMap(b)
  {
    if a != [] {
      assert (a + b)[1..] == a[1..] + b;
      ToMapAppend(a[1..], b);
      var h := map[a[0].0 := a[0].1];
      calc {
        ToMap(a + b);
        h + ToMap(a[1..] + b);
        h + (ToMap(a[1..]) + ToMap(b));
        (h + ToMap(a[1..])) + ToMap(b);
      }
    } else {
      assert a + b == b;
    }
  }

  /** The value a key ends up with is that of its last pair. */
  lemma {:induction false} ToMapLastWins(e: seq<Pair>, j: nat)
    requires j < |e|
    requires forall k :: j < k < |e| ==> e[k].0 != e[j].0
    ensures e[j].0 in ToMap(e) && ToMap(e)[e[j].0] == e[j].1
  {
    if j > 0 {
      ToMapLastWins(e[1..], j - 1);
    } else {
      NotKey(e[1..], e[0].0);
    }
  }

  lemma ToMapAt(e: seq<Pair>, i: nat)
    requires DistinctKeys(e) && i < |e|
    ensures e[i].0 in ToMap(e) && ToMap(e)[e[i].0] == e[i].1
  {
    ToMapLastWins(e, i);
  }

  // ---------------------------------------------------------------------
  // Property assignment `obj[k] = v`

  /** Putting a pair whose key the object lacks in front keeps the keys distinct. */
  lemma ConsDistinct(x: Pair, rest: Obj)
    requires x.0 !in ToMap(rest)
    ensures DistinctKeys([x] + rest)
  {
    var r := [x] + rest;
    forall i, j | 0 <= i < j < |r| ensures r[i].0 != r[j].0 {
      assert r[j] == rest[j - 1];
      if i == 0 {
        KeyAt(rest, j - 1);
      } else {
        assert r[i] == rest[i - 1];
      }
    }
  }

  /** `obj[k] = v`: replaces the value of an existing key in place, or appends a new key. */
  function Set(e: Obj, k: string, v: Value): (r: Obj)
    ensures k !in ToMap(e) ==> r == e + [(k, v)]
    ensures ToMap(r) == ToMap(e)[k := v]
  {
    if e == [] then [(k, v)]
    else if e[0].0 == k then
      HeadNotInTail(e);
      [(k, v)] + e[1..]
    else
      var rest := Set(e[1..], k, v);
      HeadNotInTail(e);
      ConsDistinct(e[0], rest);
      assert e == [e[0]] + e[1..];
      [e[0]] + rest
  }

  /** Assigning the same key twice is the same as assigning it once, the second time. */
  lemma {:induction false} SetTwice(e: Obj, k: string, a: Value, b: Value)
    ensures Set(Set(e, k, a), k, b) == Set(e, k, b)
  {
    if e != [] && e[0].0 != k {
      SetTwice(e[1..], k, a, b);
      var first := Set(e, k, a);
      assert first[0] == e[0] && first[1..] == Set(e[1..], k, a);
    }
  }

  lemma UpdateThenMerge(m: map<string, Value>, k: string, v: Value, rest: map<string, Value>)
    ensures m[k := v] + rest == m + (map[k := v] + rest)
  {
  }

  /** Copies the pairs of `src`, in order, onto `target`. */
  function Assign(target: Obj, src: Obj): (r: Obj)
    ensures ToMap(r) == ToMap(target) + ToMap(src)
    decreases |src|
  {
    if src == [] then target
    else
      var r := Assign(Set(target, src[0].0, src[0].1), src[1..]);
      UpdateThenMerge(ToMap(target), src[0].0, src[0].1, ToMap(src[1..]));
      r
  }

  /** Copying one more pair is one more assignment. */
  lemma {:induction false} AssignSnoc(target: Obj, src: Obj, i: nat)
    requires i < |src|
    ensures Assign(target, src[..i + 1]) == Set(Assign(target, src[..i]), src[i].0, src[i].1)
    decreases i
  {
    var longer := src[..i + 1];
    assert longer[0] == src[0] && longer[1..] == src[1..][..i];
    if i > 0 {
      var shorter := src[..i];
      assert shorter[0] == src[0] && shorter[1..] == src[1..][..i - 1];
      AssignSnoc(Set(target, src[0].0, src[0].1), src[1..], i - 1);
      assert src[1..][i - 1] == src[i];
    }
  }

  /**
   * jsprim.mergeObjects(provided, overrides, null): a fresh object holding the
   * pairs of `provided` and then those of `overrides`. The library's source
   * does not include jsprim; the model takes the second argument to take
   * precedence, as `Assign` shows.
   */
  function MergeObjects(provided: Option<Obj>, overrides: Option<Obj>): (r: Obj)
  {
    Assign(Assign([], provided.GetOr([])), overrides.GetOr([]))
  }

  lemma MergePrecedence(provided: Option<Obj>, overrides: Option<Obj>)
    ensures ToMap(MergeObjects(provided, overrides))
         == ToMap(provided.GetOr([])) + ToMap(overrides.GetOr([]))
  {
  }

  // ---------------------------------------------------------------------
  // String.prototype.trim and utils.trim

  /** ECMAScript WhiteSpace and LineTerminator code points, which trim removes. */
  const SpaceCodes: set<int> := {
    0x09, 0x0A, 0x0B, 0x0C, 0x0D, 0x20, 0xA0, 0x1680,
    0x2000, 0x2001, 0x2002, 0x2003, 0x2004, 0x2005, 0x2006, 0x2007, 0x2008, 0x2009, 0x200A,
    0x2028, 0x2029, 0x202F, 0x205F, 0x3000, 0xFEFF
  }

  predicate IsSpace(c: char) {
    c as int in SpaceCodes
  }

  predicate IsTrimmed(s: string) {
    s == [] || (!IsSpace(s[0]) && !IsSpace(s[|s| - 1]))
  }

  /** The first position at or after i that is not white space, or |s|. */
  function SkipSpace(s: string, i: nat): (r: nat)
    requires i <= |s|
    ensures i <= r <= |s|
    ensures forall j :: i <= j < r ==> IsSpace(s[j])
    ensures r < |s| ==> !IsSpace(s[r])
    decreases |s| - i
  {
    if i < |s| && IsSpace(s[i]) then SkipSpace(s, i + 1) else i
  }

  /** Going down from i, the end of the last character at or above lo that is not white space, or lo. */
  function SkipSpaceBack(s: string, lo: nat, i: nat): (r: nat)
    requires lo <= i <= |s|
    ensures lo <= r <= i
    ensures forall j :: r <= j < i ==> IsSpace(s[j])
    ensures r > lo ==> !IsSpace(s[r - 1])
    decreases i
  {
    if i > lo && IsSpace(s[i - 1]) then SkipSpaceBack(s, lo, i - 1) else i
  }

  /** String.prototype.trim: drops the white space at both ends. */
  function TrimStr(s: string): (r: string)
  {
    var lead := SkipSpace(s, 0);
    s[lead..SkipSpaceBack(s, lead, |s|)]
  }

  /** `s` is leading white space, then the trimmed string, which neither starts nor ends with white space, then trailing white space. */
  lemma TrimStrShape(s: string)
    ensures var lead := SkipSpace(s, 0);
            var stop := SkipSpaceBack(s, lead, |s|);
            && TrimStr(s) == s[lead..stop]
            && (forall j :: 0 <= j < lead ==> IsSpace(s[j]))
            && (forall j :: stop <= j < |s| ==> IsSpace(s[j]))
            && IsTrimmed(TrimStr(s))
  {
    var lead := SkipSpace(s, 0);
    var stop := SkipSpaceBack(s, lead, |s|);
    var r := s[lead..stop];
    if r != [] {
      assert r[0] == s[lead] && r[|r| - 1] == s[stop - 1];
    }
  }

  /** What trim returns neither starts nor ends with white space. */
  lemma TrimStrTrimmed(s: string)
    ensures IsTrimmed(TrimStr(s))
  {
    TrimStrShape(s);
  }

  /** Trimming a trimmed string changes nothing. */
  lemma TrimStrIdempotent(s: string)
    requires IsTrimmed(s)
    ensures TrimStr(s) == s
  {
    if s != [] {
      assert SkipSpace(s, 0) == 0;
      assert SkipSpaceBack(s, 0, |s|) == |s|;
    }
  }

  function TrimValue(v: Value): (r: Value)
  {
    if v.Str? then Str(TrimStr(v.s)) else v
  }

  predicate TrimmedPair(p: Pair) {
    IsTrimmed(p.0) && (p.1.Str? ==> IsTrimmed(p.1.s))
  }

  /** A pair with its key and, if it is a string, its value trimmed. */
  function TrimPair(p: Pair): Pair
  {
    (TrimStr(p.0), TrimValue(p.1))
  }

  lemma TrimPairTrimmed(p: Pair)
    ensures TrimmedPair(TrimPair(p))
  {
    TrimStrTrimmed(p.0);
    if p.1.Str? { TrimStrTrimmed(p.1.s); }
  }

  /** The pairs of `e` with keys and string values trimmed, in order. */
  function TrimPairs(e: seq<Pair>): (r: seq<Pair>)
    ensures |r| == |e|
  {
    if e == [] then [] else [TrimPair(e[0])] + TrimPairs(e[1..])
  }

  lemma {:induction false} TrimPairsAt(e: seq<Pair>, i: nat)
    requires i < |e|
    ensures TrimPairs(e)[i] == TrimPair(e[i])
  {
    if i > 0 { TrimPairsAt(e[1..], i - 1); }
  }

  /** The `reduce` of utils.trim: assigns each trimmed pair, in order, onto `acc`. */
  function TrimInto(acc: Obj, e: seq<Pair>): (r: Obj)
    decreases |e|
  {
    if e == [] then acc
    else TrimInto(Set(acc, TrimPair(e[0]).0, TrimPair(e[0]).1), e[1..])
  }

  /** utils.trim: a fresh object with every key and every string value trimmed. */
  function Trim(labels: Obj): (r: Obj)
  {
    TrimInto([], labels)
  }

  lemma {:induction false} TrimIntoMap(acc: Obj, e: seq<Pair>)
    ensures ToMap(TrimInto(acc, e)) == ToMap(acc) + ToMap(TrimPairs(e))
    decreases |e|
  {
    if e != [] {
      var k, v := TrimPair(e[0]).0, TrimPair(e[0]).1;
      TrimIntoMap(Set(acc, k, v), e[1..]);
      UpdateThenMerge(ToMap(acc), k, v, ToMap(TrimPairs(e[1..])));
    }
  }

  lemma {:induction false} TrimIntoTrimmed(acc: Obj, e: seq<Pair>)
    requires forall p :: p in acc ==> TrimmedPair(p)
    ensures forall p :: p in TrimInto(acc, e) ==> TrimmedPair(p)
    decreases |e|
  {
    if e != [] {
      var k, v := TrimPair(e[0]).0, TrimPair(e[0]).1;
      TrimPairTrimmed(e[0]);
      SetKeepsPairs(acc, k, v);
      TrimIntoTrimmed(Set(acc, k, v), e[1..]);
    }
  }

  lemma {:induction false} SetKeepsPairs(e: Obj, k: string, v: Value)
    ensures forall p :: p in Set(e, k, v) ==> p in e || p == (k, v)
  {
    if e != [] && e[0].0 != k {
      SetKeepsPairs(e[1..], k, v);
    }
  }

  /** utils.trim as a label set: the trimmed pairs assigned in order, so a later key wins. */
  lemma TrimMeaning(labels: Obj)
    ensures ToMap(Trim(labels)) == ToMap(TrimPairs(labels))
  {
    TrimIntoMap([], labels);
    assert ToMap(TrimInto([], labels)) == ToMap([]) + ToMap(TrimPairs(labels));
    assert ToMap([]) == map[];
  }

  /** Every key and every string value utils.trim returns is trimmed. */
  lemma TrimTrimmed(labels: Obj)
    ensures forall p :: p in Trim(labels) ==> TrimmedPair(p)
  {
    TrimIntoTrimmed([], labels);
  }

  /**
   * When two keys trim to the same string, the value of the later one is kept:
   * the pair at `j` wins when no later key trims to the same string.
   */
  lemma TrimLaterKeyWins(labels: Obj, j: nat)
    requires j < |labels|
    requires forall k :: j < k < |labels| ==> TrimStr(labels[k].0) != TrimStr(labels[j].0)
    ensures TrimStr(labels[j].0) in ToMap(Trim(labels))
    ensures ToMap(Trim(labels))[TrimStr(labels[j].0)] == TrimValue(labels[j].1)
  {
    TrimMeaning(labels);
    forall k | j <= k < |labels| ensures TrimPairs(labels)[k] == TrimPair(labels[k]) {
      TrimPairsAt(labels, k);
    }
    ToMapLastWins(TrimPairs(labels), j);
  }

  // ---------------------------------------------------------------------
  // hashObj

  /** The default order of Array.prototype.sort on strings: lexicographic by character. */
  function StrLt(a: string, b: string): bool
  {
    if a == [] then b != []
    else if b == [] then false
    else if a[0] != b[0] then a[0] < b[0]
    else StrLt(a[1..], b[1..])
  }

  lemma {:induction false} StrLtIrreflexive(a: string)
    ensures !StrLt(a, a)
  {
    if a != [] { StrLtIrreflexive(a[1..]); }
  }

  lemma {:induction false} StrLtTransitive(a: string, b: string, c: string)
    requires StrLt(a, b) && StrLt(b, c)
    ensures StrLt(a, c)
  {
    if a != [] && b != [] && c != [] && a[0] == b[0] && b[0] == c[0] {
      StrLtTransitive(a[1..], b[1..], c[1..]);
    }
  }

  lemma {:induction false} StrLtTotal(a: string, b: string)
    ensures a == b || StrLt(a, b) || StrLt(b, a)
  {
    if a != [] && b != [] && a[0] == b[0] {
      StrLtTotal(a[1..], b[1..]);
      assert a == [a[0]] + a[1..] && b == [b[0]] + b[1..];
    }
  }

  lemma StrLtIsOrder()
    ensures Sorting.IsStrictTotalOrder(StrLt)
  {
    forall a ensures !StrLt(a, a) { StrLtIrreflexive(a); }
    forall a, b, c | StrLt(a, b) && StrLt(b, c) ensures StrLt(a, c) {
      StrLtTransitive(a, b, c);
    }
    forall a, b ensures a == b || StrLt(a, b) || StrLt(b, a) { StrLtTotal(a, b); }
  }

  /** Object.keys(obj). */
  function KeyList(e: seq<Pair>): (ks: seq<string>)
    ensures |ks| == |e| && forall i :: 0 <= i < |e| ==> ks[i] == e[i].0
  {
    if e == [] then [] else [e[0].0] + KeyList(e[1..])
  }

  /** Object.keys(obj).sort(). */
  function SortedKeys(e: Obj): (ks: seq<string>)
  {
    Sorting.Sort(KeyList(e), StrLt)
  }

  /** The pairs of `e` for the keys `ks`, in the order of `ks`. */
  function PairsFor(e: Obj, ks: seq<string>): (r: seq<Pair>)
    requires forall k :: k in ks ==> k in ToMap(e)
    ensures |r| == |ks|
    ensures forall i :: 0 <= i < |ks| ==> r[i] == (ks[i], ToMap(e)[ks[i]])
  {
    if ks == [] then [] else [(ks[0], ToMap(e)[ks[0]])] + PairsFor(e, ks[1..])
  }

  /** The key-sorted pairs of a label object: what hashObj serialises. */
  function Canonical(e: Obj): (r: seq<Pair>)
  {
    var ks := SortedKeys(e);
    assert forall k :: k in ks ==> k in ToMap(e) by {
      Sorting.SortMembers(KeyList(e), StrLt);
      forall k | k in ks ensures k in ToMap(e) {
        var i :| 0 <= i < |KeyList(e)| && KeyList(e)[i] == k;
        KeyAt(e, i);
      }
    }
    PairsFor(e, ks)
  }

  /**
   * The result of hashObj: md5 of the serialised canonical pairs. The model
   * keeps the canonical pairs themselves, which makes the digest injective; for
   * md5 that is an assumption (no collisions among the label sets in use).
   */
  datatype Digest = Digest(canonical: seq<Pair>)

  lemma SortedKeysFacts(e: Obj)
    ensures Sorting.Sorted(SortedKeys(e), StrLt)
    ensures Sorting.Distinct(SortedKeys(e))
    ensures forall k :: k in SortedKeys(e) <==> k in ToMap(e)
  {
    StrLtIsOrder();
    var ks := KeyList(e);
    assert Sorting.Distinct(ks);
    Sorting.SortSorted(ks, StrLt);
    Sorting.SortMembers(ks, StrLt);
    forall i, j | 0 <= i < j < |SortedKeys(e)| ensures SortedKeys(e)[i] != SortedKeys(e)[j] {
      StrLtIrreflexive(SortedKeys(e)[i]);
    }
    forall k ensures k in SortedKeys(e) <==> k in ToMap(e) {
      if k in ToMap(e) {
        var i := KeyIndex(e, k);
        assert ks[i] == k;
      }
      if k in ks {
        var i :| 0 <= i < |ks| && ks[i] == k;
        KeyAt(e, i);
      }
    }
  }

  lemma PairsForSnoc(e: Obj, ks: seq<string>, i: nat)
    requires i < |ks| && forall k :: k in ks ==> k in ToMap(e)
    ensures PairsFor(e, ks[..i + 1]) == PairsFor(e, ks[..i]) + [(ks[i], ToMap(e)[ks[i]])]
  {
    assert ks[..i + 1] == ks[..i] + [ks[i]];
  }

  /** utils.hashObj: sorts the keys and copies each pair, in that order, into a fresh object. */
  method HashObj(obj: Obj) returns (d: Digest)
    ensures d == Digest(Canonical(obj))
  {
    var keys := SortedKeys(obj);
    SortedKeysFacts(obj);
    var newObj: Obj := [];
    var i := 0;
    while i < |keys|
      invariant 0 <= i <= |keys|
      invariant newObj == PairsFor(obj, keys[..i])
    {
      NotKey(newObj, keys[i]);
      PairsForSnoc(obj, keys, i);
      newObj := Set(newObj, keys[i], ToMap(obj)[keys[i]]);
      i := i + 1;
    }
    assert keys[..i] == keys;
    d := Digest(newObj);
  }

  /** hashObj ignores insertion order: objects with the same pairs get the same digest. */
  lemma CanonicalOrderIndependent(a: Obj, b: Obj)
    requires ToMap(a) == ToMap(b)
    ensures Canonical(a) == Canonical(b)
  {
    StrLtIsOrder();
    SortedKeysFacts(a);
    SortedKeysFacts(b);
    Sorting.SortedUnique(SortedKeys(a), SortedKeys(b), StrLt);
  }

  /** The canonical pairs are the object's own pairs. */
  lemma CanonicalMeaning(e: Obj)
    ensures ToMap(Canonical(e)) == ToMap(e)
  {
    var c := Canonical(e);
    var ks := SortedKeys(e);
    SortedKeysFacts(e);
    assert DistinctKeys(c);
    forall k ensures (k in ToMap(c) <==> k in ToMap(e)) && (k in ToMap(c) ==> ToMap(c)[k] == ToMap(e)[k]) {
      if k in ToMap(c) {
        var i := KeyIndex(c, k);
        ToMapAt(c, i);
      }
      if k in ToMap(e) {
        var i :| 0 <= i < |ks| && ks[i] == k;
        KeyAt(c, i);
      }
    }
  }

  /** Distinct label sets get distinct digests. */
  lemma CanonicalInjective(a: Obj, b: Obj)
    requires Canonical(a) == Canonical(b)
    ensures ToMap(a) == ToMap(b)
  {
    CanonicalMeaning(a);
    CanonicalMeaning(b);
  }

  // ---------------------------------------------------------------------
  // shallowClone

  /** utils.shallowClone: copies each own pair, in order, into a fresh object. */
  method ShallowClone(obj: Obj) returns (clone: Obj)
    ensures clone == obj
  {
    clone := [];
    var i := 0;
    while i < |obj|
      invariant 0 <= i <= |obj|
      invariant clone == obj[..i]
    {
      assert obj[i].0 !in ToMap(clone) by {
        NotKey(clone, obj[i].0);
      }
      clone := Set(clone, obj[i].0, obj[i].1);
      assert obj[..i + 1] == obj[..i] + [obj[i]];
      i := i + 1;
    }
    assert obj[..i] == obj;
  }

  // ---------------------------------------------------------------------
  // checkValid and checkValidCollector

  predicate IsNameStart(c: char) {
    ('a' <= c <= 'z') || ('A' <= c <= 'Z') || c == '_'
  }

  predicate IsNameChar(c: char) {
    IsNameStart(c) || ('0' <= c <= '9')
  }

  /** The regular expression ^[a-zA-Z_][a-zA-Z0-9_]*$. */
  predicate IsName(s: string) {
    |s| > 0 && IsNameStart(s[0]) && forall i :: 1 <= i < |s| ==> IsNameChar(s[i])
  }

  predicate ValidPair(p: Pair) {
    IsName(p.0) && !p.1.Other?
  }

  function PairError(p: Pair): Error {
    if !IsName(p.0) then InvalidLabelKey(p.0) else InvalidLabelValue(p.0)
  }

  /** The error for the first pair with a bad key or a value that is not a string, number or boolean. */
  function FirstLabelError(e: seq<Pair>): (r: Option<Error>)
    ensures r.None? <==> forall i :: 0 <= i < |e| ==> ValidPair(e[i])
    ensures r.Some? ==> exists i :: 0 <= i < |e| && !ValidPair(e[i]) && r.value == PairError(e[i]) &&
                                    forall j :: 0 <= j < i ==> ValidPair(e[j])
  {
    if e == [] then None
    else if !ValidPair(e[0]) then Some(PairError(e[0]))
    else
      var r := FirstLabelError(e[1..]);
      assert r.Some? ==> exists i :: 0 <= i < |e| && !ValidPair(e[i]) && r.value == PairError(e[i]) &&
                                      forall j :: 0 <= j < i ==> ValidPair(e[j]) by {
        if r.Some? {
          var i :| 0 <= i < |e| - 1 && !ValidPair(e[1..][i]) && r.value == PairError(e[1..][i]) &&
                   forall j :: 0 <= j < i ==> ValidPair(e[1..][j]);
          assert e[i + 1] == e[1..][i];
          assert forall j :: 0 <= j < i + 1 ==> ValidPair(e[j]) by {
            forall j | 0 <= j < i + 1 ensures ValidPair(e[j]) {
              if j > 0 { assert e[j] == e[1..][j - 1]; }
            }
          }
        }
      }
      r
  }

  /**
   * utils.checkValid: null for absent labels; otherwise walks the pairs with an
   * error flag that, once set, makes the remaining iterations do nothing.
   */
  method CheckValid(labels: Option<Obj>) returns (err: Option<Error>)
    ensures labels.None? ==> err == None
    ensures labels.Some? ==> err == FirstLabelError(labels.value)
  {
    err := None;
    if labels.None? {
      return;
    }
    var e := labels.value;
    var i := 0;
    while i < |e|
      invariant 0 <= i <= |e|
      invariant err == FirstLabelError(e[..i])
    {
      if err.None? {
        if !IsName(e[i].0) {
          err := Some(InvalidLabelKey(e[i].0));
        } else if e[i].1.Other? {
          err := Some(InvalidLabelValue(e[i].0));
        }
      }
      PrefixError(e, i);
      i := i + 1;
    }
    assert e[..i] == e;
  }

  lemma {:induction false} PrefixError(e: seq<Pair>, i: nat)
    requires i < |e|
    ensures FirstLabelError(e[..i + 1]) ==
            if FirstLabelError(e[..i]).Some? then FirstLabelError(e[..i])
            else if !ValidPair(e[i]) then Some(PairError(e[i]))
            else None
  {
    var longer := e[..i + 1];
    assert longer[0] == e[0] && longer[1..] == e[1..][..i];
    if i > 0 {
      var shorter := e[..i];
      assert shorter[0] == e[0] && shorter[1..] == e[1..][..i - 1];
      PrefixError(e[1..], i - 1);
      assert e[1..][i - 1] == e[i];
    }
  }

  /**
   * utils.checkValidCollector: the name must be a string matching the name
   * pattern and the help a string; when both fail, the help error is the one
   * returned.
   */
  function CheckValidCollector(name: Value, help: Value): (r: Option<Error>)
    ensures r.None? <==> (name.Str? && IsName(name.s) && help.Str?)
    ensures !help.Str? ==> r == Some(InvalidCollectorHelp)
    ensures help.Str? && r.Some? ==> r == Some(InvalidCollectorName)
  {
    var err := if !name.Str? || !IsName(name.s) then Some(InvalidCollectorName) else None;
    if !help.Str? then Some(InvalidCollectorHelp) else err
  }
}
