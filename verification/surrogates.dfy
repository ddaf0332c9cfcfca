/**
  Length and slicing of UTF-16 text that take surrogate pairs into account.
  A .NET string is a sequence of 16-bit code units; a character outside the Basic
  Multilingual Plane is a high surrogate followed by a low surrogate. Dafny's `char`
  cannot hold a lone surrogate, so code units are modelled as a 16-bit newtype.
*/
module Surrogates {
  import opened Wrappers

  newtype CodeUnit = u: int | 0 <= u < 0x1_0000

  type Utf16 = seq<CodeUnit>

  /** `Char.IsHighSurrogate`. */
  predicate IsHighSurrogate(c: CodeUnit) {
    0xD800 <= c <= 0xDBFF
  }

  predicate IsLowSurrogate(c: CodeUnit) {
    0xDC00 <= c <= 0xDFFF
  }

  /** `ArgumentNullException` and the re-thrown `ArgumentOutOfRangeException`, which names the inputs. */
  datatype TextError =
    | ArgumentNull
    | ArgumentOutOfRange(str: Utf16, startIndex: int, length: int)

  /** The number of high surrogates in `s`. */
  function HighCount(s: Utf16): nat {
    if |s| == 0 then 0 else (if IsHighSurrogate(s[0]) then 1 else 0) + HighCount(s[1..])
  }

  predicate NoHighSurrogate(s: Utf16) {
    forall i :: 0 <= i < |s| ==> !IsHighSurrogate(s[i])
  }

  lemma {:induction false} HighCountAppend(a: Utf16, b: Utf16)
    ensures HighCount(a + b) == HighCount(a) + HighCount(b)
    decreases |a|
  {
    if |a| == 0 {
      assert a + b == b;
    } else {
      assert (a + b)[1..] == a[1..] + b;
      HighCountAppend(a[1..], b);
    }
  }

  lemma {:induction false} HighCountBounds(s: Utf16)
    ensures HighCount(s) <= |s|
    ensures HighCount(s) == 0 <==> NoHighSurrogate(s)
    decreases |s|
  {
    if |s| > 0 {
      HighCountBounds(s[1..]);
      if NoHighSurrogate(s) {
        assert NoHighSurrogate(s[1..]) by {
          forall i | 0 <= i < |s[1..]| ensures !IsHighSurrogate(s[1..][i]) {
            assert s[1..][i] == s[i + 1];
          }
        }
      }
      if HighCount(s) == 0 {
        forall i | 0 <= i < |s| ensures !IsHighSurrogate(s[i]) {
          if i > 0 {
            assert s[i] == s[1..][i - 1];
          }
        }
      }
    }
  }

  /** `str.Sum(c => Char.IsHighSurrogate(c) ? 2 : 1)`, summed left to right. */
  function UnsurrogatedSum(s: Utf16): (n: nat)
    ensures n == |s| + HighCount(s)
    decreases |s|
  {
    if |s| == 0 then 0
    else
      var init := s[..|s| - 1];
      assert s == init + [s[|s| - 1]];
      HighCountAppend(init, [s[|s| - 1]]);
      UnsurrogatedSum(init) + (if IsHighSurrogate(s[|s| - 1]) then 2 else 1)
  }

  /** `str.Sum(c => Char.IsHighSurrogate(c) ? 0 : 1)`, summed left to right. */
  function SurrogatedSum(s: Utf16): (n: nat)
    ensures n + HighCount(s) == |s|
    decreases |s|
  {
    if |s| == 0 then 0
    else
      var init := s[..|s| - 1];
      assert s == init + [s[|s| - 1]];
      HighCountAppend(init, [s[|s| - 1]]);
      SurrogatedSum(init) + (if IsHighSurrogate(s[|s| - 1]) then 0 else 1)
  }

  /** `UnsurrogatedLength`: the length plus one per high surrogate; null is an argument error. */
  function UnsurrogatedLength(str: Option<Utf16>): (r: Result<nat, TextError>)
    ensures str.None? ==> r == Failure(ArgumentNull)
    ensures str.Some? ==> r == Success(|str.value| + HighCount(str.value))
  {
    if str.None? then Failure(ArgumentNull) else Success(UnsurrogatedSum(str.value))
  }

  /** `SurrogatedLength`: the length minus one per high surrogate; null is an argument error. */
  function SurrogatedLength(str: Option<Utf16>): (r: Result<nat, TextError>)
    ensures str.None? ==> r == Failure(ArgumentNull)
    ensures str.Some? ==> r == Success(|str.value| - HighCount(str.value))
  {
    if str.None? then Failure(ArgumentNull) else Success(SurrogatedSum(str.value))
  }

  /**
    The surrogate-aware length never exceeds the code-unit length, which never exceeds
    the unsurrogated length; all three coincide exactly when there is no high surrogate.
  */
  lemma LengthsOrdered(s: Utf16)
    ensures SurrogatedLength(Some(s)).value <= |s| <= UnsurrogatedLength(Some(s)).value
    ensures SurrogatedLength(Some(s)).value == |s| <==> NoHighSurrogate(s)
    ensures UnsurrogatedLength(Some(s)).value == |s| <==> NoHighSurrogate(s)
  {
    HighCountBounds(s);
  }

  /** The code-unit offset `SurrogatedSubstring` starts at: `startIndex` plus the high surrogates before it. */
  function StartOffset(s: Utf16, startIndex: int): nat
    requires 0 <= startIndex <= |s|
  {
    startIndex + HighCount(s[..startIndex])
  }

  /** The code-unit count it takes from `ss`: `length` plus the high surrogates among those units. */
  function TakenUnits(s: Utf16, ss: nat, length: nat): nat
    requires ss + length <= |s|
  {
    length + HighCount(s[ss..ss + length])
  }

  /**
    `SurrogatedSubstring` as written, on a non-null string. The start offset counts the
    high surrogates among the first `startIndex` code units (not code points);
    `length == -1` takes the rest, and every range violation surfaces as one
    out-of-range error naming the inputs.
  */
  function SubstringOf(s: Utf16, startIndex: int, length: int): (r: Result<Utf16, TextError>)
    ensures r.Failure? ==> r.error == ArgumentOutOfRange(s, startIndex, length)
    ensures length == -1 ==>
              (r.Success? <==> 0 <= startIndex <= |s| && StartOffset(s, startIndex) <= |s|)
    ensures length == -1 && r.Success? ==> r.value == s[StartOffset(s, startIndex)..]
    ensures length != -1 ==>
              (r.Success? <==>
                 0 <= startIndex <= |s| && 0 <= length &&
                 StartOffset(s, startIndex) + length <= |s| &&
                 StartOffset(s, startIndex) + TakenUnits(s, StartOffset(s, startIndex), length) <= |s|)
    ensures length != -1 && r.Success? ==>
              var ss := StartOffset(s, startIndex);
              r.value == s[ss..ss + TakenUnits(s, ss, length)]
  {
    if startIndex < 0 || startIndex > |s| then Failure(ArgumentOutOfRange(s, startIndex, length))
    else
      var ss := UnsurrogatedSum(s[..startIndex]);
      if length == -1 then
        if ss <= |s| then Success(s[ss..]) else Failure(ArgumentOutOfRange(s, startIndex, length))
      else if length < 0 || ss + length > |s| then Failure(ArgumentOutOfRange(s, startIndex, length))
      else
        var sl := UnsurrogatedSum(s[ss..ss + length]);
        if ss + sl <= |s| then Success(s[ss..ss + sl]) else Failure(ArgumentOutOfRange(s, startIndex, length))
  }

  /** `SurrogatedSubstring`: a null string is an argument error. */
  function SurrogatedSubstring(str: Option<Utf16>, startIndex: int, length: int): (r: Result<Utf16, TextError>)
    ensures str.None? <==> r == Failure(ArgumentNull)
    ensures str.Some? ==> r == SubstringOf(str.value, startIndex, length)
  {
    if str.None? then Failure(ArgumentNull) else SubstringOf(str.value, startIndex, length)
  }

  /** Without high surrogates the helper is plain `Substring`. */
  lemma SubstringWithoutSurrogates(s: Utf16, startIndex: int, length: int)
    requires NoHighSurrogate(s)
    requires 0 <= startIndex && 0 <= length && startIndex + length <= |s|
    ensures SurrogatedSubstring(Some(s), startIndex, length) == Success(s[startIndex..startIndex + length])
    ensures SurrogatedSubstring(Some(s), startIndex, -1) == Success(s[startIndex..])
  {
    NoHighPrefixes(s, startIndex, length);
  }

  lemma NoHighPrefixes(s: Utf16, startIndex: int, length: int)
    requires 0 <= startIndex <= |s|
    ensures NoHighSurrogate(s) ==> HighCount(s[..startIndex]) == 0
    ensures NoHighSurrogate(s) && 0 <= length && startIndex + length <= |s| ==>
              HighCount(s[startIndex..startIndex + length]) == 0
  {
    if NoHighSurrogate(s) {
      HighCountBounds(s[..startIndex]);
      if 0 <= length && startIndex + length <= |s| {
        HighCountBounds(s[startIndex..startIndex + length]);
      }
    }
  }

  // ---- The intended reading: offsets in code points --------------------------

  /** A high surrogate at `i` is followed by a low surrogate. */
  predicate PairedAt(s: Utf16, i: nat)
    requires i < |s|
  {
    IsHighSurrogate(s[i]) ==> i + 1 < |s| && IsLowSurrogate(s[i + 1])
  }

  /** Every high surrogate is followed by a low surrogate. */
  predicate WellFormed(s: Utf16) {
    forall i :: 0 <= i < |s| ==> PairedAt(s, i)
  }

  /** Offset `i` does not split a surrogate pair. */
  predicate Boundary(s: Utf16, i: nat)
    requires i <= |s|
  {
    i == 0 || !IsHighSurrogate(s[i - 1])
  }

  /** The number of code units of the code point starting at `i`. */
  function Width(s: Utf16, i: nat): (w: nat)
    requires i < |s|
    ensures 1 <= w <= |s| - i
  {
    if IsHighSurrogate(s[i]) && i + 1 < |s| then 2 else 1
  }

  /** The offset `k` code points after `from`, or `None` when the text ends first. */
  function Advance(s: Utf16, from: nat, k: nat): (r: Option<nat>)
    requires from <= |s|
    ensures r.Some? ==> from <= r.value <= |s|
    decreases k
  {
    if k == 0 then Some(from)
    else if from == |s| then None
    else Advance(s, from + Width(s, from), k - 1)
  }

  lemma SurrogatedSumAppend(a: Utf16, b: Utf16)
    ensures SurrogatedSum(a + b) == SurrogatedSum(a) + SurrogatedSum(b)
  {
    HighCountAppend(a, b);
  }

  /** In well-formed text one step of `Width` covers exactly one code point and lands on a boundary. */
  lemma StepIsOneCodePoint(s: Utf16, i: nat)
    requires WellFormed(s) && i < |s|
    ensures SurrogatedSum(s[i..i + Width(s, i)]) == 1
    ensures Boundary(s, i + Width(s, i))
  {
    var w := Width(s, i);
    assert PairedAt(s, i);
    if w == 2 {
      assert s[i..i + w] == [s[i], s[i + 1]];
      assert [s[i], s[i + 1]][1..] == [s[i + 1]];
    } else {
      assert s[i..i + w] == [s[i]];
    }
  }

  /** `Advance` counts code points: where it lands, exactly `k` code points lie behind, on a boundary. */
  lemma {:induction false} AdvanceLands(s: Utf16, from: nat, k: nat)
    requires WellFormed(s) && from <= |s|
    requires Advance(s, from, k).Some?
    ensures SurrogatedSum(s[from..Advance(s, from, k).value]) == k
    ensures Boundary(s, from) ==> Boundary(s, Advance(s, from, k).value)
    decreases k
  {
    if k == 0 {
      assert s[from..from] == [];
    } else {
      var w := Width(s, from);
      StepIsOneCodePoint(s, from);
      AdvanceLands(s, from + w, k - 1);
      var r := Advance(s, from + w, k - 1).value;
      assert s[from..r] == s[from..from + w] + s[from + w..r];
      SurrogatedSumAppend(s[from..from + w], s[from + w..r]);
    }
  }

  /** `Advance` runs out exactly when fewer than `k` code points follow `from`. */
  lemma {:induction false} AdvanceFails(s: Utf16, from: nat, k: nat)
    requires WellFormed(s) && from <= |s|
    ensures Advance(s, from, k).None? <==> SurrogatedSum(s[from..]) < k
    decreases k
  {
    if k == 0 {
    } else if from == |s| {
      assert s[from..] == [];
    } else {
      var w := Width(s, from);
      StepIsOneCodePoint(s, from);
      AdvanceFails(s, from + w, k - 1);
      assert s[from..] == s[from..from + w] + s[from + w..];
      SurrogatedSumAppend(s[from..from + w], s[from + w..]);
    }
  }

  /**
    Substring in code points: the start is `startIndex` code points in, and the result
    holds `length` code points (or the rest of the text when `length == -1`).
  */
  function CodePointSubstringOf(s: Utf16, startIndex: int, length: int): (r: Result<Utf16, TextError>)
    ensures r.Failure? ==> r.error == ArgumentOutOfRange(s, startIndex, length)
  {
    if startIndex < 0 then Failure(ArgumentOutOfRange(s, startIndex, length))
    else
      match Advance(s, 0, startIndex)
      case None => Failure(ArgumentOutOfRange(s, startIndex, length))
      case Some(a) =>
        if length == -1 then Success(s[a..])
        else if length < 0 then Failure(ArgumentOutOfRange(s, startIndex, length))
        else
          match Advance(s, a, length)
          case None => Failure(ArgumentOutOfRange(s, startIndex, length))
          case Some(b) => Success(s[a..b])
  }

  /** The corrected `SurrogatedSubstring`: a null string is an argument error. */
  function CodePointSubstring(str: Option<Utf16>, startIndex: int, length: int): (r: Result<Utf16, TextError>)
    ensures str.None? <==> r == Failure(ArgumentNull)
    ensures str.Some? ==> r == CodePointSubstringOf(str.value, startIndex, length)
  {
    if str.None? then Failure(ArgumentNull) else CodePointSubstringOf(str.value, startIndex, length)
  }

  /** On well-formed text the corrected substring succeeds exactly when the requested code points exist. */
  lemma CodePointSubstringSucceeds(s: Utf16, startIndex: int, length: int)
    requires WellFormed(s)
    ensures CodePointSubstringOf(s, startIndex, length).Success? <==>
              0 <= startIndex <= SurrogatedSum(s) &&
              (length == -1 || (0 <= length && startIndex + length <= SurrogatedSum(s)))
  {
    if startIndex >= 0 {
      AdvanceFails(s, 0, startIndex);
      assert s[0..] == s;
      if Advance(s, 0, startIndex).Some? {
        var a := Advance(s, 0, startIndex).value;
        AdvanceLands(s, 0, startIndex);
        assert s[0..a] == s[..a];
        assert s == s[..a] + s[a..];
        SurrogatedSumAppend(s[..a], s[a..]);
        if length >= 0 {
          AdvanceFails(s, a, length);
        }
      }
    }
  }

  /** The last offset of well-formed text is a boundary. */
  lemma EndIsBoundary(s: Utf16)
    requires WellFormed(s)
    ensures Boundary(s, |s|)
  {
    if |s| > 0 {
      assert PairedAt(s, |s| - 1);
    }
  }

  /**
    On well-formed text a successful corrected substring is the slice between two pair
    boundaries that starts `startIndex` code points in and holds `length` code points
    (or runs to the end when `length == -1`).
  */
  lemma CodePointSubstringSlices(s: Utf16, startIndex: int, length: int)
    requires WellFormed(s)
    requires CodePointSubstringOf(s, startIndex, length).Success?
    ensures exists a: nat, b: nat :: a <= b <= |s| && Boundary(s, a) && Boundary(s, b) &&
              SurrogatedSum(s[..a]) == startIndex &&
              CodePointSubstringOf(s, startIndex, length).value == s[a..b] &&
              (length == -1 ==> b == |s|) &&
              (length != -1 ==> SurrogatedSum(s[a..b]) == length)
  {
    var a := Advance(s, 0, startIndex).value;
    AdvanceLands(s, 0, startIndex);
    assert s[0..a] == s[..a];
    if length == -1 {
      EndIsBoundary(s);
      assert s[a..] == s[a..|s|];
      assert SurrogatedSum(s[..a]) == startIndex;
    } else {
      var b := Advance(s, a, length).value;
      AdvanceLands(s, a, length);
      assert CodePointSubstringOf(s, startIndex, length).value == s[a..b];
    }
  }

  /** Without high surrogates every code point is one code unit. */
  lemma {:induction false} AdvancePlain(s: Utf16, from: nat, k: nat)
    requires NoHighSurrogate(s) && from <= |s|
    ensures Advance(s, from, k) == if from + k <= |s| then Some(from + k) else None
    decreases k
  {
    if k > 0 && from < |s| {
      AdvancePlain(s, from + 1, k - 1);
    }
  }

  /** Without high surrogates the code-unit and code-point readings agree. */
  lemma SubstringReadingsAgree(s: Utf16, startIndex: int, length: int)
    requires NoHighSurrogate(s)
    ensures SurrogatedSubstring(Some(s), startIndex, length) == CodePointSubstring(Some(s), startIndex, length)
  {
    if 0 <= startIndex <= |s| {
      NoHighPrefixes(s, startIndex, length);
      AdvancePlain(s, 0, startIndex);
      if length >= 0 {
        AdvancePlain(s, startIndex, length);
      }
    } else if startIndex > |s| {
      AdvancePlain(s, 0, startIndex);
    }
  }

  /** Two emoji (each a surrogate pair) followed by `a`. */
  const TwoEmojiThenA: Utf16 := [0xD83D, 0xDE00, 0xD83D, 0xDE00, 0x61]

  /**
    The as-written start offset counts high surrogates among the first `startIndex`
    code units: asking for the text from code point 2 (`a`) starts inside the second
    pair, at a lone low surrogate; the code-point reading returns `a`.
  */
  lemma SubstringSplitsPair()
    ensures WellFormed(TwoEmojiThenA)
    ensures SurrogatedSubstring(Some(TwoEmojiThenA), 2, -1) == Success(TwoEmojiThenA[3..])
    ensures !Boundary(TwoEmojiThenA, 3) && IsLowSurrogate(TwoEmojiThenA[3])
    ensures CodePointSubstring(Some(TwoEmojiThenA), 2, -1) == Success([0x61])
  {
    var s := TwoEmojiThenA;
    assert s[..2] == [0xD83D, 0xDE00];
    assert HighCount(s[..2]) == 1 by {
      assert s[..2][1..] == [0xDE00];
      assert [0xDE00 as CodeUnit][1..] == [];
    }
    assert Advance(s, 0, 2) == Some(4);
    assert s[4..] == [0x61];
  }
}
