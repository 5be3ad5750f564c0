/** The first pass of `process_formula`: splitting a formula string into
    element-symbol and number tokens. The scan is modelled as the source
    runs it, character by character with an accumulator; the tokens it
    produces are then described independently, as the text between
    consecutive token starts with everything but ASCII letters and digits
    removed. */
module FormulaScan {
  import opened Chars

  predicate IsAlnum(c: char)
  {
    IsDigit(c) || IsLetter(c)
  }

  /** How many letters and digits `s[lo..hi]` holds, counted from the front. */
  function AlnumCount(s: string, lo: nat, hi: nat): nat
    requires hi <= |s|
    decreases hi - lo
  {
    if hi <= lo then 0 else (if IsAlnum(s[lo]) then 1 else 0) + AlnumCount(s, lo + 1, hi)
  }

  /** The count also grows one character at a time at the back. */
  lemma {:induction false} AlnumCountSnoc(s: string, lo: nat, hi: nat)
    requires lo < hi <= |s|
    ensures AlnumCount(s, lo, hi) == AlnumCount(s, lo, hi - 1) + (if IsAlnum(s[hi - 1]) then 1 else 0)
    decreases hi - lo
  {
    if lo + 1 < hi {
      AlnumCountSnoc(s, lo + 1, hi);
    }
  }

  /** The letters and digits of `s[lo..hi]`, in order: the characters of
      that stretch that some branch of the scan matches. */
  function KeptBetween(s: string, lo: nat, hi: nat): (r: string)
    requires hi <= |s|
    ensures |r| <= hi - lo || (hi <= lo && r == [])
    ensures forall k :: 0 <= k < |r| ==> IsAlnum(r[k])
  {
    if hi <= lo then []
    else KeptBetween(s, lo, hi - 1) + (if IsAlnum(s[hi - 1]) then [s[hi - 1]] else [])
  }

  /** Nothing but letters and digits survives, and none of them is lost:
      there are as many survivors as letters and digits, and the letter or
      digit at position `k` is the survivor numbered by how many letters and
      digits precede it. */
  lemma {:induction false} KeptBetweenKeepsAll(s: string, lo: nat, hi: nat)
    requires hi <= |s|
    ensures |KeptBetween(s, lo, hi)| == AlnumCount(s, lo, hi)
    ensures forall k :: lo <= k < hi && IsAlnum(s[k]) ==>
              AlnumCount(s, lo, k) < |KeptBetween(s, lo, hi)| && KeptBetween(s, lo, hi)[AlnumCount(s, lo, k)] == s[k]
    decreases hi
  {
    if lo < hi {
      KeptBetweenKeepsAll(s, lo, hi - 1);
      AlnumCountSnoc(s, lo, hi);
    }
  }

  /** The letters and digits of `s`. */
  function Kept(s: string): string
  {
    KeptBetween(s, 0, |s|)
  }

  /** The character the scan compares against at position `i`: the one
      before it, except at position 0, where Python's index -1 wraps round
      to the last character. */
  function PrevChar(s: string, i: nat): char
    requires i < |s|
  {
    if i == 0 then s[|s| - 1] else s[i - 1]
  }

  // ----- The scan as written -----

  /** The state of the scan: the tokens pushed so far (the first of which
      is the initial accumulator) and the accumulator `tmp`. */
  datatype Scan = Scan(pushed: seq<string>, tmp: string)

  /** One iteration of the scan loop, on character `c` whose predecessor,
      as the scan reads it, is `prev`. A capital, or a digit after a
      non-digit, pushes the accumulator and restarts it with `c`; any other
      letter or digit is appended to the accumulator; everything else is
      skipped. */
  function Step(st: Scan, c: char, prev: char): (r: Scan)
    ensures (IsUpper(c) || (IsDigit(c) && !IsDigit(prev))) ==> r == Scan(st.pushed + [st.tmp], [c])
    ensures !(IsUpper(c) || (IsDigit(c) && !IsDigit(prev))) ==>
              r == Scan(st.pushed, st.tmp + (if IsAlnum(c) then [c] else []))
  {
    if IsDigit(c) && IsDigit(prev) then Scan(st.pushed, st.tmp + [c])
    else if IsDigit(c) then Scan(st.pushed + [st.tmp], [c])
    else if IsLower(c) then Scan(st.pushed, st.tmp + [c])
    else if IsUpper(c) then Scan(st.pushed + [st.tmp], [c])
    else st
  }

  /** The state after the first `i` iterations: everything from before each
      token start below `i` has been pushed, and the accumulator holds the
      letters and digits since the last start. This is the loop invariant
      of the scan. */
  function ScanPrefix(s: string, i: nat): (r: Scan)
    requires i <= |s|
    ensures r == Scan(PushedBelow(s, i), KeptBetween(s, LastStart(s, i), i))
  {
    if i == 0 then
      assert StartsBelow(s, 0) == [];
      assert PushedBelow(s, 0) == [];
      Scan([], "")
    else
      var st := ScanPrefix(s, i - 1);
      if StartsToken(s, i - 1) then
        PushedAtStart(s, i - 1);
        Step(st, s[i - 1], PrevChar(s, i - 1))
      else
        PushedElsewhere(s, i - 1);
        Step(st, s[i - 1], PrevChar(s, i - 1))
  }

  /** The token list: the final accumulator is pushed, then the first
      element, the accumulator as it was before the first token started,
      is dropped. What is left is exactly one token per start: the letters
      and digits from that start up to the next. */
  function Tokenize(s: string): (r: seq<string>)
    ensures r == Segments(s)
  {
    PushesAreSegments(s);
    var st := ScanPrefix(s, |s|);
    (st.pushed + [st.tmp])[1..]
  }

  // ----- The tokens described by where they start -----

  /** A token starts at `p` at every capital letter and at every digit
      whose predecessor, as the scan reads it, is not a digit. */
  predicate StartsToken(s: string, p: nat)
    requires p < |s|
  {
    IsUpper(s[p]) || (IsDigit(s[p]) && !IsDigit(PrevChar(s, p)))
  }

  /** The positions below `i` at which a token starts, in increasing order. */
  function StartsBelow(s: string, i: nat): (b: seq<nat>)
    requires i <= |s|
    ensures forall k :: 0 <= k < |b| ==> b[k] < i
  {
    if i == 0 then []
    else StartsBelow(s, i - 1) + (if StartsToken(s, i - 1) then [i - 1] else [])
  }

  /** The start positions are exactly the positions where a token starts. */
  lemma {:induction false} StartsBelowMembers(s: string, i: nat, p: nat)
    requires i <= |s| && p < i
    ensures p in StartsBelow(s, i) <==> StartsToken(s, p)
  {
    if p < i - 1 {
      StartsBelowMembers(s, i - 1, p);
    }
  }

  /** The start positions are strictly increasing. */
  lemma {:induction false} StartsBelowIncreasing(s: string, i: nat)
    requires i <= |s|
    ensures forall k, m :: 0 <= k < m < |StartsBelow(s, i)| ==> StartsBelow(s, i)[k] < StartsBelow(s, i)[m]
  {
    if i > 0 {
      StartsBelowIncreasing(s, i - 1);
    }
  }

  function Starts(s: string): seq<nat>
  {
    StartsBelow(s, |s|)
  }

  /** Where the token starting at `b[k]` ends: at the next start, or at `n`. */
  function SegmentEnd(b: seq<nat>, k: nat, n: nat): nat
    requires k < |b|
  {
    if k + 1 < |b| then b[k + 1] else n
  }

  /** The tokens: for each start, the letters and digits from it up to the
      next start. */
  function Segments(s: string): (ts: seq<string>)
    ensures |ts| == |Starts(s)|
  {
    var b := Starts(s);
    seq(|b|, k requires 0 <= k < |b| => KeptBetween(s, b[k], SegmentEnd(b, k, |s|)))
  }

  /** What the scan accumulates before the first token starts, and then
      throws away. */
  function Discarded(s: string): string
  {
    var b := Starts(s);
    if |b| == 0 then Kept(s) else KeptBetween(s, 0, b[0])
  }

  // ----- The scan computes the segments -----

  /** The text pushed before each of the starts `b`: the letters and digits
      from the previous start, or from the beginning, up to it. */
  function PushedOf(s: string, b: seq<nat>): seq<string>
    requires forall k :: 0 <= k < |b| ==> b[k] <= |s|
  {
    seq(|b|, k requires 0 <= k < |b| => KeptBetween(s, if k == 0 then 0 else b[k - 1], b[k]))
  }

  /** The text pushed by the time the scan reaches `i`: the accumulator
      from before each start below `i`. */
  function PushedBelow(s: string, i: nat): seq<string>
    requires i <= |s|
  {
    PushedOf(s, StartsBelow(s, i))
  }

  /** One more start pushes one more stretch of text. */
  lemma PushedOfSnoc(s: string, b: seq<nat>, j: nat)
    requires forall k :: 0 <= k < |b| ==> b[k] <= |s|
    requires j <= |s|
    ensures PushedOf(s, b + [j]) == PushedOf(s, b) + [KeptBetween(s, if |b| == 0 then 0 else b[|b| - 1], j)]
  {
    var b' := b + [j];
    var p := PushedOf(s, b);
    var p' := PushedOf(s, b');
    forall k | 0 <= k < |p|
      ensures p'[k] == p[k]
    {
      assert b'[k] == b[k];
      if k > 0 {
        assert b'[k - 1] == b[k - 1];
      }
    }
  }

  /** Where the accumulator's current contents started. */
  function LastStart(s: string, i: nat): (l: nat)
    requires i <= |s|
    ensures l <= i
  {
    var b := StartsBelow(s, i);
    if |b| == 0 then 0 else b[|b| - 1]
  }

  lemma PushedAtStart(s: string, j: nat)
    requires j < |s| && StartsToken(s, j)
    ensures PushedBelow(s, j + 1) == PushedBelow(s, j) + [KeptBetween(s, LastStart(s, j), j)]
    ensures LastStart(s, j + 1) == j
  {
    var b := StartsBelow(s, j);
    assert StartsBelow(s, j + 1) == b + [j];
    PushedOfSnoc(s, b, j);
  }

  lemma PushedElsewhere(s: string, j: nat)
    requires j < |s| && !StartsToken(s, j)
    ensures PushedBelow(s, j + 1) == PushedBelow(s, j)
    ensures LastStart(s, j + 1) == LastStart(s, j)
  {
    assert StartsBelow(s, j + 1) == StartsBelow(s, j);
  }

  /** After the whole input, the pushes after the first, followed by the
      final accumulator, are the segments. */
  lemma PushesAreSegments(s: string)
    ensures (PushedBelow(s, |s|) + [KeptBetween(s, LastStart(s, |s|), |s|)])[1..] == Segments(s)
  {
    var out := (PushedBelow(s, |s|) + [KeptBetween(s, LastStart(s, |s|), |s|)])[1..];
    var ts := Segments(s);
    assert |out| == |ts|;
    forall k | 0 <= k < |ts|
      ensures out[k] == ts[k]
    {
      PushOrLastIsSegment(s, k);
    }
  }

  /** The `k`-th token is the push after the `k`-th, or, for the last
      token, the final accumulator. */
  lemma PushOrLastIsSegment(s: string, k: nat)
    requires k < |Starts(s)|
    ensures (PushedBelow(s, |s|) + [KeptBetween(s, LastStart(s, |s|), |s|)])[k + 1] == Segments(s)[k]
  {
    var b := Starts(s);
    var pushed := PushedBelow(s, |s|);
    var last := KeptBetween(s, LastStart(s, |s|), |s|);
    assert |pushed| == |b|;
    if k + 1 < |b| {
      assert (pushed + [last])[k + 1] == pushed[k + 1];
      PushedIsSegment(s, k);
    } else {
      assert (pushed + [last])[k + 1] == last;
      LastIsSegment(s);
    }
  }

  /** Every push after the first one holds a whole segment. */
  lemma PushedIsSegment(s: string, k: nat)
    requires k + 1 < |Starts(s)|
    ensures PushedBelow(s, |s|)[k + 1] == Segments(s)[k]
  {
    var b := Starts(s);
    assert Segments(s)[k] == KeptBetween(s, b[k], b[k + 1]);
  }

  /** The final accumulator holds the last segment. */
  lemma LastIsSegment(s: string)
    requires |Starts(s)| > 0
    ensures KeptBetween(s, LastStart(s, |s|), |s|) == Segments(s)[|Starts(s)| - 1]
  {
  }

  // ----- What the tokens are made of -----

  lemma {:induction false} KeptSplit(s: string, lo: nat, mid: nat, hi: nat)
    requires lo <= mid <= hi <= |s|
    ensures KeptBetween(s, lo, hi) == KeptBetween(s, lo, mid) + KeptBetween(s, mid, hi)
    decreases hi
  {
    if hi > mid {
      KeptSplit(s, lo, mid, hi - 1);
    }
  }

  /** Every kept character comes from the stretch it was kept from. */
  lemma {:induction false} KeptFrom(s: string, lo: nat, hi: nat, m: nat)
    requires hi <= |s| && m < |KeptBetween(s, lo, hi)|
    ensures exists p :: lo <= p < hi && KeptBetween(s, lo, hi)[m] == s[p]
  {
    if m < |KeptBetween(s, lo, hi - 1)| {
      KeptFrom(s, lo, hi - 1, m);
    } else {
      assert KeptBetween(s, lo, hi)[m] == s[hi - 1];
    }
  }

  /** A stretch that begins with a letter or digit keeps it first. */
  lemma KeptHead(s: string, lo: nat, hi: nat)
    requires lo < hi <= |s| && IsAlnum(s[lo])
    ensures |KeptBetween(s, lo, hi)| > 0 && KeptBetween(s, lo, hi)[0] == s[lo]
  {
    assert KeptBetween(s, lo, lo) == [];
    assert KeptBetween(s, lo, lo + 1) == [s[lo]];
    KeptSplit(s, lo, lo + 1, hi);
    var rest := KeptBetween(s, lo + 1, hi);
    assert KeptBetween(s, lo, hi) == [s[lo]] + rest;
  }

  /** The `k`-th token starts at the `k`-th start and runs up to the next,
      and no token starts strictly inside it. */
  lemma SegmentBounds(s: string, k: nat, p: nat)
    requires k < |Starts(s)|
    requires Starts(s)[k] < p < SegmentEnd(Starts(s), k, |s|)
    ensures Starts(s)[k] < SegmentEnd(Starts(s), k, |s|) <= |s|
    ensures !StartsToken(s, p)
  {
    var b := Starts(s);
    StartsBelowIncreasing(s, |s|);
    StartsBelowMembers(s, |s|, p);
  }

  lemma SegmentEndAfterStart(s: string, k: nat)
    requires k < |Starts(s)|
    ensures Starts(s)[k] < SegmentEnd(Starts(s), k, |s|) <= |s|
  {
    StartsBelowIncreasing(s, |s|);
  }

  /** Inside a token that begins with a capital, no digit occurs: a digit
      there would continue a run of digits reaching back to the capital. */
  lemma {:induction false} NoDigitAfterCapital(s: string, lo: nat, hi: nat, p: nat)
    requires lo < p < hi <= |s| && IsUpper(s[lo])
    requires forall q :: lo < q < hi ==> !StartsToken(s, q)
    ensures !IsDigit(s[p])
  {
    if IsDigit(s[p]) {
      assert !StartsToken(s, p);
      assert IsDigit(s[p - 1]);
      if p - 1 > lo {
        NoDigitAfterCapital(s, lo, hi, p - 1);
      }
    }
  }

  /** Inside the `k`-th token, after its first character, there is no
      capital, and no digit either when the token begins with a capital. */
  lemma SegmentTail(s: string, k: nat, p: nat)
    requires k < |Starts(s)|
    requires Starts(s)[k] < p < SegmentEnd(Starts(s), k, |s|)
    ensures !IsUpper(s[p])
    ensures IsUpper(s[Starts(s)[k]]) ==> !IsDigit(s[p])
  {
    var b := Starts(s);
    var lo := b[k];
    var hi := SegmentEnd(b, k, |s|);
    SegmentBounds(s, k, p);
    if IsUpper(s[lo]) {
      forall q | lo < q < hi
        ensures !StartsToken(s, q)
      {
        SegmentBounds(s, k, q);
      }
      NoDigitAfterCapital(s, lo, hi, p);
    }
  }

  /** An element symbol: a capital followed by lower-case letters. */
  predicate IsSymbolToken(t: string)
  {
    |t| > 0 && IsUpper(t[0]) && forall m :: 0 < m < |t| ==> IsLower(t[m])
  }

  /** A count: a digit followed by digits, with any lower-case letters
      that came after it before the next token. */
  predicate IsCountToken(t: string)
  {
    |t| > 0 && IsDigit(t[0]) && forall m :: 0 < m < |t| ==> IsDigit(t[m]) || IsLower(t[m])
  }

  lemma SegmentShape(s: string, k: nat)
    requires k < |Starts(s)|
    ensures IsSymbolToken(Segments(s)[k]) || IsCountToken(Segments(s)[k])
  {
    var b := Starts(s);
    var lo := b[k];
    var hi := SegmentEnd(b, k, |s|);
    SegmentEndAfterStart(s, k);
    var t := KeptBetween(s, lo, hi);
    assert Segments(s)[k] == t;
    StartsBelowMembers(s, |s|, lo);
    KeptHead(s, lo, hi);
    KeptSplit(s, lo, lo + 1, hi);
    var rest := KeptBetween(s, lo + 1, hi);
    forall m | 0 < m < |t|
      ensures !IsUpper(t[m])
      ensures IsUpper(t[0]) ==> !IsDigit(t[m])
    {
      assert t[m] == rest[m - 1];
      KeptFrom(s, lo + 1, hi, m - 1);
      var p :| lo + 1 <= p < hi && rest[m - 1] == s[p];
      SegmentTail(s, k, p);
    }
  }

  /** Every token is an element symbol or a count, and is never empty. */
  lemma TokenShape(s: string, k: nat)
    requires k < |Tokenize(s)|
    ensures IsSymbolToken(Tokenize(s)[k]) || IsCountToken(Tokenize(s)[k])
  {
    SegmentShape(s, k);
  }

  /** The tokens joined back together. */
  function Concat(ts: seq<string>): string
  {
    if |ts| == 0 then [] else ts[0] + Concat(ts[1..])
  }

  /** The tokens from the `k`-th on, joined, are the letters and digits
      from the `k`-th start to the end. */
  lemma {:induction false} ConcatSegmentsFrom(s: string, k: nat)
    requires k < |Starts(s)|
    ensures Concat(Segments(s)[k..]) == KeptBetween(s, Starts(s)[k], |s|)
    decreases |Starts(s)| - k
  {
    var b := Starts(s);
    var ts := Segments(s);
    SegmentEndAfterStart(s, k);
    assert ts[k..][1..] == ts[k + 1..];
    if k + 1 < |b| {
      ConcatSegmentsFrom(s, k + 1);
      KeptSplit(s, b[k], b[k + 1], |s|);
    } else {
      assert ts[k + 1..] == [];
    }
  }

  /** Nothing but the dropped characters and the discarded prefix is lost:
      the letters and digits of the input are the discarded prefix followed
      by the tokens. */
  lemma KeptIsDiscardedThenTokens(s: string)
    ensures Kept(s) == Discarded(s) + Concat(Tokenize(s))
  {
    var b := Starts(s);
    if |b| > 0 {
      ConcatSegmentsFrom(s, 0);
      assert Segments(s)[0..] == Segments(s);
      KeptSplit(s, 0, b[0], |s|);
    }
  }

  /** The discarded prefix is the first element the scan pushes, the one
      `[1:]` drops. */
  lemma DiscardedIsFirstPush(s: string)
    ensures (ScanPrefix(s, |s|).pushed + [ScanPrefix(s, |s|).tmp])[0] == Discarded(s)
  {
    var b := Starts(s);
    if |b| > 0 {
      assert PushedBelow(s, |s|)[0] == KeptBetween(s, 0, b[0]);
    }
  }

  /** A formula that begins with a capital loses nothing to the discarded
      prefix. */
  lemma CapitalFirstDiscardsNothing(s: string)
    requires |s| > 0 && IsUpper(s[0])
    ensures Discarded(s) == []
  {
    var b := Starts(s);
    StartsBelowMembers(s, |s|, 0);
    StartsBelowIncreasing(s, |s|);
    var m :| 0 <= m < |b| && b[m] == 0;
    assert b[0] == 0;
  }

  /** At position 0 the scan compares with the LAST character. A formula
      that begins with a digit starts a token there only when it does not
      also end with a digit; when it does, the leading digit joins the
      discarded prefix and never reaches the output. */
  lemma LeadingDigitWrapsAround(s: string)
    requires |s| > 0 && IsDigit(s[0])
    ensures IsDigit(s[|s| - 1]) ==> |Discarded(s)| > 0 && Discarded(s)[0] == s[0]
    ensures !IsDigit(s[|s| - 1]) ==> Discarded(s) == []
  {
    var b := Starts(s);
    StartsBelowMembers(s, |s|, 0);
    if IsDigit(s[|s| - 1]) {
      if |b| == 0 {
        KeptHead(s, 0, |s|);
      } else {
        assert b[0] != 0;
        KeptHead(s, 0, b[0]);
      }
    } else {
      StartsBelowIncreasing(s, |s|);
      var m :| 0 <= m < |b| && b[m] == 0;
      assert b[0] == 0;
    }
  }
}
