/**
 Go byte slices and the parts of the `bytes` and `strings` packages the
 resource adapters use: bytewise comparison, prefix test, sorting and joining.
 */
module Bytes {

  newtype byte = x: int | 0 <= x < 256

  /** A `[]byte`; a nil slice and an empty slice are the same sequence. */
  type Bytes = seq<byte>

  /** The byte of `'\n'`. */
  const NewLine: byte := 10

  /** `bytes.Compare`: -1, 0 or +1 by lexicographic order of the bytes, a
      proper prefix ordering before the longer slice. */
  function Compare(a: Bytes, b: Bytes): (c: int)
    ensures -1 <= c <= 1
    ensures c == 0 <==> a == b
  {
    if |a| == 0 && |b| == 0 then 0
    else if |a| == 0 then -1
    else if |b| == 0 then 1
    else if a[0] < b[0] then -1
    else if a[0] > b[0] then 1
    else
      var c := Compare(a[1..], b[1..]);
      assert a == [a[0]] + a[1..] && b == [b[0]] + b[1..];
      c
  }

  /** Swapping the arguments of `Compare` negates the answer. */
  lemma {:induction false} CompareFlip(a: Bytes, b: Bytes)
    ensures Compare(a, b) == -Compare(b, a)
  {
    if |a| > 0 && |b| > 0 && a[0] == b[0] {
      CompareFlip(a[1..], b[1..]);
    }
  }

  /** `a` sorts strictly before `b`, decided at position `k`: the two agree
      on their first `k` bytes, and there either `a` ends while `b` goes on,
      or `a`'s byte is the smaller. */
  ghost predicate LexLessAt(a: Bytes, b: Bytes, k: nat) {
    && k <= |a| && k <= |b|
    && a[..k] == b[..k]
    && ((k == |a| && k < |b|) || (k < |a| && k < |b| && a[k] < b[k]))
  }

  /** Lexicographic order on byte slices, the order `bytes.Compare` promises. */
  ghost predicate LexLess(a: Bytes, b: Bytes) {
    exists k: nat :: LexLessAt(a, b, k)
  }

  /** Dropping an equal first byte shifts the deciding position by one. */
  lemma LexLessAtTail(a: Bytes, b: Bytes, k: nat)
    requires |a| > 0 && |b| > 0 && a[0] == b[0]
    ensures LexLessAt(a, b, k + 1) <==> LexLessAt(a[1..], b[1..], k)
  {
    if k + 1 <= |a| && k + 1 <= |b| {
      assert a[..k + 1] == [a[0]] + a[1..][..k];
      assert b[..k + 1] == [b[0]] + b[1..][..k];
    }
  }

  /** With different first bytes, only position 0 can decide. */
  lemma LexLessAtHead(a: Bytes, b: Bytes, k: nat)
    requires |a| > 0 && |b| > 0 && a[0] != b[0]
    requires LexLessAt(a, b, k)
    ensures k == 0 && a[0] < b[0]
  {
  }

  /** `Compare` is the lexicographic order: -1 exactly when `a` sorts
      before `b`, +1 exactly when `b` sorts before `a`. */
  lemma {:induction false} CompareIsLexicographic(a: Bytes, b: Bytes)
    ensures Compare(a, b) == -1 <==> LexLess(a, b)
    ensures Compare(a, b) == 1 <==> LexLess(b, a)
  {
    if |a| == 0 || |b| == 0 {
      if |a| < |b| {
        assert LexLessAt(a, b, 0);
      } else if |b| < |a| {
        assert LexLessAt(b, a, 0);
      }
    } else if a[0] != b[0] {
      if a[0] < b[0] {
        assert LexLessAt(a, b, 0);
        forall k: nat | LexLessAt(b, a, k) ensures false {
          LexLessAtHead(b, a, k);
        }
      } else {
        assert LexLessAt(b, a, 0);
        forall k: nat | LexLessAt(a, b, k) ensures false {
          LexLessAtHead(a, b, k);
        }
      }
    } else {
      CompareIsLexicographic(a[1..], b[1..]);
      LexLessShift(a, b);
      LexLessShift(b, a);
    }
  }

  /** With equal first bytes, the order is decided by the rests. */
  lemma LexLessShift(a: Bytes, b: Bytes)
    requires |a| > 0 && |b| > 0 && a[0] == b[0]
    ensures LexLess(a, b) <==> LexLess(a[1..], b[1..])
  {
    if LexLess(a, b) {
      var k: nat :| LexLessAt(a, b, k);
      assert k > 0;
      LexLessAtTail(a, b, k - 1);
    }
    if LexLess(a[1..], b[1..]) {
      var k: nat :| LexLessAt(a[1..], b[1..], k);
      LexLessAtTail(a, b, k);
    }
  }

  /** `a` sorts at or before `b` under `bytes.Compare`. */
  predicate Below(a: Bytes, b: Bytes) {
    Compare(a, b) <= 0
  }

  /** `Below` is transitive. */
  lemma {:induction false} BelowTransitive(a: Bytes, b: Bytes, c: Bytes)
    requires Below(a, b) && Below(b, c)
    ensures Below(a, c)
  {
    if |a| > 0 && |b| > 0 && |c| > 0 && a[0] == b[0] == c[0] {
      BelowTransitive(a[1..], b[1..], c[1..]);
    }
  }

  /** Any two slices are ordered one way or the other. */
  lemma BelowTotal(a: Bytes, b: Bytes)
    ensures Below(a, b) || Below(b, a)
  {
    CompareFlip(a, b);
  }

  /** Ascending under `bytes.Compare`. */
  predicate Sorted(s: seq<Bytes>) {
    forall i, j :: 0 <= i < j < |s| ==> Below(s[i], s[j])
  }

  /** Inserts `x` into the sorted `s` at its place. */
  function Insert(x: Bytes, s: seq<Bytes>): (r: seq<Bytes>)
    requires Sorted(s)
    ensures Sorted(r)
    ensures multiset(r) == multiset(s) + multiset{x}
  {
    if |s| == 0 then [x]
    else if Below(x, s[0]) then
      assert forall j :: 0 <= j < |s| ==> Below(x, s[j]) by {
        forall j | 0 <= j < |s| ensures Below(x, s[j]) {
          if j > 0 { BelowTransitive(x, s[0], s[j]); }
        }
      }
      [x] + s
    else
      var rest := Insert(x, s[1..]);
      assert s == [s[0]] + s[1..];
      BelowTotal(x, s[0]);
      assert forall j :: 0 <= j < |rest| ==> Below(s[0], rest[j]) by {
        forall j | 0 <= j < |rest| ensures Below(s[0], rest[j]) {
          assert rest[j] in multiset(rest);
          if rest[j] != x {
            assert rest[j] in multiset(s[1..]);
            var m :| 0 <= m < |s[1..]| && s[1..][m] == rest[j];
            assert s[m + 1] == rest[j];
          }
        }
      }
      [s[0]] + rest
  }

  /** `slices.SortFunc(s, bytes.Compare)`, as an insertion sort. Equal
      elements are equal slices, so every sorting algorithm gives this
      result (see `SortedUnique`). */
  function Sort(s: seq<Bytes>): (r: seq<Bytes>)
    ensures Sorted(r)
    ensures multiset(r) == multiset(s)
  {
    if |s| == 0 then []
    else
      assert s == [s[0]] + s[1..];
      Insert(s[0], Sort(s[1..]))
  }

  /** A multiset of slices has only one ascending arrangement. */
  lemma {:induction false} SortedUnique(a: seq<Bytes>, b: seq<Bytes>)
    requires Sorted(a) && Sorted(b)
    requires multiset(a) == multiset(b)
    ensures a == b
  {
    if |a| == 0 {
      assert |b| == |multiset(b)| == 0;
    } else {
      assert |b| == |multiset(b)| == |multiset(a)| == |a|;
      SortedHeads(a, b);
      DropHead(a);
      DropHead(b);
      SortedUnique(a[1..], b[1..]);
      assert a == [a[0]] + a[1..] && b == [b[0]] + b[1..];
    }
  }

  /** Two ascending arrangements of one multiset start alike. */
  lemma SortedHeads(a: seq<Bytes>, b: seq<Bytes>)
    requires Sorted(a) && Sorted(b)
    requires multiset(a) == multiset(b)
    requires |a| > 0 && |b| > 0
    ensures a[0] == b[0]
  {
    assert a[0] in multiset(b) && b[0] in multiset(a);
    var i :| 0 <= i < |b| && b[i] == a[0];
    var j :| 0 <= j < |a| && a[j] == b[0];
    assert Below(b[0], a[0]) by { if i > 0 { assert Below(b[0], b[i]); } }
    assert Below(a[0], b[0]) by { if j > 0 { assert Below(a[0], a[j]); } }
    CompareFlip(a[0], b[0]);
  }

  /** Dropping the head keeps the order and removes one copy of it. */
  lemma DropHead(a: seq<Bytes>)
    requires Sorted(a) && |a| > 0
    ensures Sorted(a[1..])
    ensures multiset(a[1..]) == multiset(a) - multiset{a[0]}
  {
    assert a == [a[0]] + a[1..];
  }

  /** `strings.HasPrefix` / `bytes.HasPrefix`. */
  predicate HasPrefix(s: Bytes, prefix: Bytes) {
    |prefix| <= |s| && s[..|prefix|] == prefix
  }

  /** A slice starts with `prefix` exactly when it is `prefix` followed by
      the rest of the slice. */
  lemma HasPrefixSplits(s: Bytes, prefix: Bytes)
    ensures HasPrefix(s, prefix) <==> |prefix| <= |s| && s == prefix + s[|prefix|..]
    ensures HasPrefix(prefix + s, prefix)
  {
  }

  /** `bytes.Join` with a one-byte separator: no parts join to nothing, one
      part is itself, and more parts put the first one and a separator in
      front of the join of the rest. */
  function Join(parts: seq<Bytes>, sep: byte): (r: Bytes)
    ensures |parts| == 0 ==> r == []
    ensures |parts| >= 1 ==> HasPrefix(r, parts[0])
    ensures |parts| >= 2 ==> |r| > |parts[0]| && r[|parts[0]|] == sep
    ensures |parts| >= 2 ==> r[|parts[0]| + 1..] == Join(parts[1..], sep)
  {
    if |parts| == 0 then []
    else if |parts| == 1 then parts[0]
    else parts[0] + [sep] + Join(parts[1..], sep)
  }

  /** Splits at every `sep`: the inverse of `Join` used by line-based
      decoders. There is always at least one (possibly empty) piece. */
  function Split(b: Bytes, sep: byte): (r: seq<Bytes>)
    ensures |r| >= 1
  {
    if |b| == 0 then [[]]
    else
      var rest := Split(b[1..], sep);
      if b[0] == sep then [[]] + rest
      else [[b[0]] + rest[0]] + rest[1..]
  }

  /** A piece free of the separator, followed by the separator, splits off
      as one piece. */
  lemma {:induction false} SplitAfterPiece(p: Bytes, sep: byte, tail: Bytes)
    requires sep !in p
    ensures Split(p + [sep] + tail, sep) == [p] + Split(tail, sep)
    ensures Split(p, sep) == [p]
  {
    if |p| > 0 {
      assert (p + [sep] + tail)[1..] == p[1..] + [sep] + tail;
      SplitAfterPiece(p[1..], sep, tail);
      assert p == [p[0]] + p[1..];
    } else {
      assert p + [sep] + tail == [sep] + tail;
    }
  }

  /** Joining pieces that do not contain the separator loses nothing. */
  lemma {:induction false} SplitJoin(parts: seq<Bytes>, sep: byte)
    requires |parts| >= 1
    requires forall i :: 0 <= i < |parts| ==> sep !in parts[i]
    ensures Split(Join(parts, sep), sep) == parts
  {
    if |parts| == 1 {
      SplitAfterPiece(parts[0], sep, []);
    } else {
      SplitJoin(parts[1..], sep);
      SplitAfterPiece(parts[0], sep, Join(parts[1..], sep));
      assert parts == [parts[0]] + parts[1..];
    }
  }
}
