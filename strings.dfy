/** The Some/None datatype used wherever the Rust code returns an `Option`. */
module Wrappers {
  datatype Option<+T> = None | Some(value: T)
}

/**
 * String helpers shared by the runtime and the build script: lower-casing,
 * substring search, joining with a separator and splitting at a character.
 */
module Strings {

  /** ASCII lower-casing of one character; every other character is kept. */
  function LowerChar(c: char): char
  {
    if 'A' <= c <= 'Z' then (c as int + 32) as char else c
  }

  /** `str::to_lowercase`, restricted to ASCII letters. */
  function Lower(s: string): string
  {
    seq(|s|, i requires 0 <= i < |s| => LowerChar(s[i]))
  }

  /** A string with no upper-case ASCII letter. */
  predicate IsLower(s: string)
  {
    forall i :: 0 <= i < |s| ==> !('A' <= s[i] <= 'Z')
  }

  /** Lower-casing leaves nothing to lower-case and keeps the length. */
  lemma LowerIsLower(s: string)
    ensures |Lower(s)| == |s|
    ensures IsLower(Lower(s))
    ensures Lower(Lower(s)) == Lower(s)
  {
  }

  /** `pat` occurs in `text` starting at index `i`. */
  predicate OccursAt(text: string, pat: string, i: int)
  {
    0 <= i && i + |pat| <= |text| && text[i..i + |pat|] == pat
  }

  /** `pat` occurs in `text` as a contiguous substring (`str::contains`). */
  predicate Contains(text: string, pat: string)
  {
    exists i | 0 <= i <= |text| - |pat| :: OccursAt(text, pat, i)
  }

  /** A substring of a substring is a substring of the whole. */
  lemma ContainsInContext(pre: string, mid: string, post: string, pat: string)
    requires Contains(mid, pat)
    ensures Contains(pre + mid + post, pat)
  {
    var i :| 0 <= i <= |mid| - |pat| && OccursAt(mid, pat, i);
    assert mid[i..i + |pat|] == pat;
    var whole := pre + mid + post;
    assert whole[|pre| + i..|pre| + i + |pat|] == mid[i..i + |pat|];
    assert OccursAt(whole, pat, |pre| + i);
  }

  /** Containment is transitive: a substring of a substring of `text` is one of `text`. */
  lemma ContainsTransitive(text: string, mid: string, pat: string)
    requires Contains(text, mid) && Contains(mid, pat)
    ensures Contains(text, pat)
  {
    var i :| 0 <= i <= |text| - |mid| && OccursAt(text, mid, i);
    assert text == text[..i] + mid + text[i + |mid|..];
    ContainsInContext(text[..i], mid, text[i + |mid|..], pat);
  }

  /** `[String]::join(sep)`: the parts with `sep` between neighbours. */
  function Join(parts: seq<string>, sep: string): string
  {
    if |parts| == 0 then ""
    else if |parts| == 1 then parts[0]
    else parts[0] + sep + Join(parts[1..], sep)
  }

  /** Every part of a join occurs in the joined string. */
  lemma {:induction false} JoinContainsParts(parts: seq<string>, sep: string, k: nat)
    requires k < |parts|
    ensures Contains(Join(parts, sep), parts[k])
  {
    if |parts| == 1 {
      assert OccursAt(parts[0], parts[0], 0);
    } else if k == 0 {
      assert OccursAt(parts[0], parts[0], 0);
      ContainsInContext("", parts[0], sep + Join(parts[1..], sep), parts[0]);
      assert "" + parts[0] + (sep + Join(parts[1..], sep)) == Join(parts, sep);
    } else {
      JoinContainsParts(parts[1..], sep, k - 1);
      ContainsInContext(parts[0] + sep, Join(parts[1..], sep), "", parts[k]);
      assert parts[0] + sep + Join(parts[1..], sep) + "" == Join(parts, sep);
    }
  }

  /** Splits `s` at every occurrence of `c`; there is always at least one piece. */
  function Split(s: string, c: char): (r: seq<string>)
    ensures |r| >= 1
  {
    if |s| == 0 then [""]
    else if s[0] == c then [""] + Split(s[1..], c)
    else var t := Split(s[1..], c); [[s[0]] + t[0]] + t[1..]
  }

  /** Splitting a piece free of `c`, then `c`, then the rest. */
  lemma {:induction false} SplitAfterPiece(x: string, c: char, rest: string)
    requires c !in x
    ensures Split(x + [c] + rest, c) == [x] + Split(rest, c)
  {
    if |x| == 0 {
      assert x + [c] + rest == [c] + rest;
      assert ([c] + rest)[1..] == rest;
    } else {
      SplitAfterPiece(x[1..], c, rest);
      assert (x + [c] + rest)[1..] == x[1..] + [c] + rest;
      assert [x[0]] + x[1..] == x;
    }
  }

  /** Splitting a string free of `c` gives it back as the only piece. */
  lemma {:induction false} SplitWithout(x: string, c: char)
    requires c !in x
    ensures Split(x, c) == [x]
  {
    if |x| > 0 {
      SplitWithout(x[1..], c);
      assert [x[0]] + x[1..] == x;
    }
  }

  /** Split undoes Join when no part contains the separator character. */
  lemma {:induction false} SplitJoin(parts: seq<string>, c: char)
    requires |parts| >= 1
    requires forall k :: 0 <= k < |parts| ==> c !in parts[k]
    ensures Split(Join(parts, [c]), c) == parts
  {
    if |parts| == 1 {
      SplitWithout(parts[0], c);
    } else {
      SplitJoin(parts[1..], c);
      SplitAfterPiece(parts[0], c, Join(parts[1..], [c]));
      assert [parts[0]] + parts[1..] == parts;
    }
  }
}

/**
 * The iterator adaptors the Rust code chains (`filter`, `position`, `find`),
 * as functions over sequences, with the facts the callers rely on.
 */
module Sequences {
  import opened Wrappers

  /**
   * `idx` picks `sub` out of `s`: the indices are increasing, in range, and
   * `sub[k]` is `s[idx[k]]`. So `sub` is a subsequence of `s` in `s`'s order.
   */
  ghost predicate Embedding<T>(idx: seq<int>, sub: seq<T>, s: seq<T>)
  {
    && |idx| == |sub|
    && (forall k :: 0 <= k < |idx| ==> 0 <= idx[k] < |s| && sub[k] == s[idx[k]])
    && (forall k, l :: 0 <= k < l < |idx| ==> idx[k] < idx[l])
  }

  /** `iter().filter(p).collect()`: the elements satisfying `p`, in order. */
  function Filter<T>(s: seq<T>, p: T -> bool): (r: seq<T>)
    ensures |r| <= |s|
    ensures forall x :: x in r ==> x in s && p(x)
    ensures forall x :: x in s && p(x) ==> x in r
  {
    if |s| == 0 then []
    else (if p(s[0]) then [s[0]] else []) + Filter(s[1..], p)
  }

  /** Shifts every index one place to the right. */
  function Shift(idx: seq<int>): (r: seq<int>)
  {
    seq(|idx|, k requires 0 <= k < |idx| => idx[k] + 1)
  }

  /**
   * The filter keeps exactly the indices whose element satisfies `p`, and
   * keeps them in order: the result is an order-preserving subsequence.
   */
  lemma {:induction false} FilterKeepsOrder<T>(s: seq<T>, p: T -> bool)
    ensures exists idx :: Embedding(idx, Filter(s, p), s) &&
                          forall i :: 0 <= i < |s| ==> (i in idx <==> p(s[i]))
  {
    var idx := FilterIndices(s, p);
  }

  /** An index is in the shifted sequence exactly when its predecessor is in the original. */
  lemma ShiftMembership(idx: seq<int>, i: int)
    ensures i in Shift(idx) <==> i - 1 in idx
  {
    if i - 1 in idx {
      var k :| 0 <= k < |idx| && idx[k] == i - 1;
      assert Shift(idx)[k] == i;
    }
  }

  /** An embedding into the tail shifts to an embedding into the whole sequence. */
  lemma EmbeddingShift<T>(idx: seq<int>, sub: seq<T>, s: seq<T>)
    requires |s| > 0
    requires Embedding(idx, sub, s[1..])
    ensures Embedding(Shift(idx), sub, s)
  {
    var shifted := Shift(idx);
    forall k | 0 <= k < |shifted|
      ensures 1 <= shifted[k] < |s| && sub[k] == s[shifted[k]]
    {
      assert shifted[k] == idx[k] + 1;
      assert s[1..][idx[k]] == s[idx[k] + 1];
    }
  }

  /** An embedding that avoids index 0 extends by the head of the sequence. */
  lemma EmbeddingCons<T>(idx: seq<int>, sub: seq<T>, s: seq<T>)
    requires |s| > 0
    requires Embedding(idx, sub, s)
    requires forall k :: 0 <= k < |idx| ==> idx[k] >= 1
    ensures Embedding([0] + idx, [s[0]] + sub, s)
  {
    var full, fullSub := [0] + idx, [s[0]] + sub;
    forall k | 1 <= k < |full|
      ensures full[k] == idx[k - 1] && fullSub[k] == sub[k - 1]
    {
    }
  }

  /** The witness for `FilterKeepsOrder`, built by induction on `s`. */
  lemma {:induction false} FilterIndices<T>(s: seq<T>, p: T -> bool) returns (idx: seq<int>)
    ensures Embedding(idx, Filter(s, p), s)
    ensures forall i :: 0 <= i < |s| ==> (i in idx <==> p(s[i]))
  {
    if |s| == 0 {
      idx := [];
    } else {
      var rest := FilterIndices(s[1..], p);
      EmbeddingShift(rest, Filter(s[1..], p), s);
      var shifted := Shift(rest);
      if p(s[0]) {
        EmbeddingCons(shifted, Filter(s[1..], p), s);
      }
      idx := if p(s[0]) then [0] + shifted else shifted;
      assert Filter(s, p) == if p(s[0]) then [s[0]] + Filter(s[1..], p) else Filter(s[1..], p);
      forall i | 0 <= i < |s|
        ensures i in idx <==> p(s[i])
      {
        ShiftMembership(rest, i);
        if i > 0 {
          assert s[1..][i - 1] == s[i];
        }
      }
    }
  }

  /** Filtering distributes over concatenation. */
  lemma {:induction false} FilterAppend<T>(a: seq<T>, b: seq<T>, p: T -> bool)
    ensures Filter(a + b, p) == Filter(a, p) + Filter(b, p)
  {
    if |a| == 0 {
      assert a + b == b;
    } else {
      var ab := a + b;
      assert ab[0] == a[0] && ab[1..] == a[1..] + b;
      FilterAppend(a[1..], b, p);
      var head := if p(a[0]) then [a[0]] else [];
      calc {
        Filter(ab, p);
        head + Filter(a[1..] + b, p);
        head + (Filter(a[1..], p) + Filter(b, p));
        (head + Filter(a[1..], p)) + Filter(b, p);
      }
    }
  }

  /** Splitting a list at a position `j` whose element satisfies `p`. */
  lemma FilterAround<T>(s: seq<T>, p: T -> bool, j: int)
    requires 0 <= j < |s| && p(s[j])
    ensures Filter(s, p) == Filter(s[..j], p) + [s[j]] + Filter(s[j + 1..], p)
  {
    var front, back := s[..j], s[j..];
    assert s == front + back;
    FilterAppend(front, back, p);
    assert back[0] == s[j] && back[1..] == s[j + 1..];
    assert Filter(back, p) == [s[j]] + Filter(s[j + 1..], p);
  }

  /** When `s[j]` is the first element satisfying `p`, it heads the filtered list. */
  lemma {:induction false} FilterFirst<T>(s: seq<T>, p: T -> bool, j: int)
    requires 0 <= j < |s| && p(s[j])
    requires forall m :: 0 <= m < j ==> !p(s[m])
    ensures |Filter(s, p)| > 0 && Filter(s, p)[0] == s[j]
  {
    if j > 0 {
      assert !p(s[0]);
      assert forall m :: 0 <= m < j - 1 ==> s[1..][m] == s[m + 1];
      FilterFirst(s[1..], p, j - 1);
    }
  }

  /** When `s[j]` is the last element satisfying `p`, it ends the filtered list. */
  lemma FilterLast<T>(s: seq<T>, p: T -> bool, j: int)
    requires 0 <= j < |s| && p(s[j])
    requires forall m :: j < m < |s| ==> !p(s[m])
    ensures |Filter(s, p)| > 0 && Filter(s, p)[|Filter(s, p)| - 1] == s[j]
  {
    FilterAround(s, p, j);
    var rest := s[j + 1..];
    assert forall m :: 0 <= m < |rest| ==> rest[m] == s[j + 1 + m];
    FilterNothing(rest, p);
  }

  /** A one-element list keeps its element exactly when it satisfies `p`. */
  lemma FilterSingle<T>(x: T, p: T -> bool)
    ensures Filter([x], p) == if p(x) then [x] else []
  {
    assert [x][1..] == [];
  }

  /** Filtering a list where nothing satisfies `p` leaves nothing. */
  lemma FilterNothing<T>(s: seq<T>, p: T -> bool)
    requires forall m :: 0 <= m < |s| ==> !p(s[m])
    ensures Filter(s, p) == []
  {
  }

  /** `iter().position(p)`: the index of the first element satisfying `p`. */
  function Position<T>(s: seq<T>, p: T -> bool): (r: Option<nat>)
    ensures r.Some? ==> r.value < |s| && p(s[r.value]) &&
                        forall j :: 0 <= j < r.value ==> !p(s[j])
    ensures r.None? ==> forall j :: 0 <= j < |s| ==> !p(s[j])
  {
    if |s| == 0 then None
    else if p(s[0]) then Some(0)
    else match Position(s[1..], p)
      case None => None
      case Some(i) => Some(i + 1)
  }

  /** `iter().find(p)`: the first element satisfying `p`. */
  function Find<T>(s: seq<T>, p: T -> bool): (r: Option<T>)
    ensures r.Some? ==> exists i :: 0 <= i < |s| && s[i] == r.value && p(s[i]) &&
                                    forall j :: 0 <= j < i ==> !p(s[j])
    ensures r.None? ==> forall x :: x in s ==> !p(x)
  {
    match Position(s, p)
    case None => None
    case Some(i) => Some(s[i])
  }

  /** A first index satisfying `p` is the one `Position` reports. */
  lemma PositionIsFirst<T>(s: seq<T>, p: T -> bool, i: nat)
    requires i < |s| && p(s[i])
    requires forall j :: 0 <= j < i ==> !p(s[j])
    ensures Position(s, p) == Some(i)
  {
  }
}
