/** String operations of Python that the recorder relies on: substring
    membership (`p in s`), `str.replace`, and fixed-width decimal fields as
    produced by `strftime` and read by `strptime`. */
module Text {
  import opened Wrappers

  predicate StartsWith(s: string, p: string) {
    |p| <= |s| && s[..|p|] == p
  }

  /** `p` occurs in `s` starting at position `i`. */
  predicate OccursAt(s: string, p: string, i: nat) {
    i + |p| <= |s| && s[i..i + |p|] == p
  }

  /** Python's `p in s` for two strings. */
  predicate Contains(s: string, p: string)
    decreases |s|
  {
    StartsWith(s, p) || (|s| > 0 && Contains(s[1..], p))
  }

  /** `p in s` holds exactly when `p` occurs in `s` at some position. */
  lemma {:induction false} ContainsIffOccurs(s: string, p: string)
    ensures Contains(s, p) <==> exists i: nat :: OccursAt(s, p, i)
    decreases |s|
  {
    assert StartsWith(s, p) <==> OccursAt(s, p, 0) by {
      if |p| <= |s| {
        assert s[..|p|] == s[0..|p|];
      }
    }
    if !StartsWith(s, p) && |s| > 0 {
      ContainsIffOccurs(s[1..], p);
      if Contains(s[1..], p) {
        var i: nat :| OccursAt(s[1..], p, i);
        assert s[1..][i..i + |p|] == s[i + 1..i + 1 + |p|];
        assert OccursAt(s, p, i + 1);
      } else {
        forall i: nat | i > 0 ensures !OccursAt(s, p, i) {
          assert !OccursAt(s[1..], p, i - 1);
          if i + |p| <= |s| {
            assert s[1..][i - 1..i - 1 + |p|] == s[i..i + |p|];
          }
        }
      }
    }
  }

  /** Python's `s.replace(pat, rep)` for a non-empty `pat`: occurrences are
      found left to right and do not overlap. */
  function ReplaceAll(s: string, pat: string, rep: string): (r: string)
    requires pat != ""
    ensures !Contains(s, pat) ==> r == s
    ensures rep != "" ==> (r == "" <==> s == "")
    decreases |s|
  {
    if s == "" then ""
    else if StartsWith(s, pat) then rep + ReplaceAll(s[|pat|..], pat, rep)
    else [s[0]] + ReplaceAll(s[1..], pat, rep)
  }

  /** `str.replace` copies the text before the first occurrence of the
      pattern, writes the replacement in its place and goes on after it.
      With the unchanged case in the contract of `ReplaceAll`, this fixes
      the result for every input. */
  lemma {:induction false} ReplaceAt(s: string, pat: string, rep: string, k: nat)
    requires pat != "" && OccursAt(s, pat, k)
    requires forall i: nat :: i < k ==> !OccursAt(s, pat, i)
    ensures ReplaceAll(s, pat, rep) == s[..k] + rep + ReplaceAll(s[k + |pat|..], pat, rep)
    decreases k
  {
    assert StartsWith(s, pat) <==> OccursAt(s, pat, 0) by {
      assert s[..|pat|] == s[0..|pat|];
    }
    if k > 0 {
      FirstOccurrenceShift(s, pat, k);
      ReplaceAt(s[1..], pat, rep, k - 1);
      SkipStep(s, pat, rep, k);
    } else {
      assert s != "" && StartsWith(s, pat);
      assert s[..k] == "";
    }
  }

  /** The step of `ReplaceAt` past a first character that starts no
      occurrence. */
  lemma SkipStep(s: string, pat: string, rep: string, k: nat)
    requires pat != "" && 0 < k && k + |pat| <= |s| && !StartsWith(s, pat)
    requires ReplaceAll(s[1..], pat, rep)
             == s[1..][..k - 1] + rep + ReplaceAll(s[1..][k - 1 + |pat|..], pat, rep)
    ensures ReplaceAll(s, pat, rep) == s[..k] + rep + ReplaceAll(s[k + |pat|..], pat, rep)
  {
    assert ReplaceAll(s, pat, rep) == [s[0]] + ReplaceAll(s[1..], pat, rep);
    assert s[1..][..k - 1] == s[1..k];
    assert s[1..][k - 1 + |pat|..] == s[k + |pat|..];
    var tail := ReplaceAll(s[k + |pat|..], pat, rep);
    assert s[..k] == [s[0]] + s[1..k];
    Regroup([s[0]], s[1..k], rep, tail);
  }

  /** Dropping the first character moves the first occurrence one to the
      left. */
  lemma FirstOccurrenceShift(s: string, pat: string, k: nat)
    requires k > 0 && OccursAt(s, pat, k)
    requires forall i: nat :: i < k ==> !OccursAt(s, pat, i)
    ensures OccursAt(s[1..], pat, k - 1)
    ensures forall i: nat :: i < k - 1 ==> !OccursAt(s[1..], pat, i)
  {
    assert s[1..][k - 1..k - 1 + |pat|] == s[k..k + |pat|];
    forall i: nat | i < k - 1 ensures !OccursAt(s[1..], pat, i) {
      assert !OccursAt(s, pat, i + 1);
      if i + |pat| <= |s| - 1 {
        assert s[1..][i..i + |pat|] == s[i + 1..i + 1 + |pat|];
      }
    }
  }

  /** A prefix of `s` followed by the piece of `s` after it is a longer
      prefix of `s`. */
  lemma PrefixExtend(s: string, p: string, i: nat, piece: string)
    requires i + |piece| <= |s| && p == s[..i] && s[i..i + |piece|] == piece
    ensures p + piece == s[..i + |piece|]
  {
  }

  lemma Regroup(a: string, b: string, c: string, d: string)
    ensures a + (b + c + d) == a + b + c + d
  {
  }

  // ---------------------------------------------------------------------
  // Decimal digits

  function Pow10(n: nat): (r: nat)
    ensures r >= 1
  {
    if n == 0 then 1 else 10 * Pow10(n - 1)
  }

  predicate IsDigit(c: char) {
    '0' <= c <= '9'
  }

  predicate AllDigits(s: string) {
    forall i :: 0 <= i < |s| ==> IsDigit(s[i])
  }

  function DigitChar(d: nat): (c: char)
    requires d < 10
    ensures IsDigit(c)
  {
    ('0' as int + d) as char
  }

  /** `n` written in exactly `width` decimal digits, zero-padded on the left
      (the `%02d`/`%04d`-style fields of `strftime`). */
  function Digits(n: nat, width: nat): (s: string)
    requires n < Pow10(width)
    ensures |s| == width && AllDigits(s)
  {
    if width == 0 then ""
    else Digits(n / 10, width - 1) + [DigitChar(n % 10)]
  }

  /** The value of a string of decimal digits; `None` if any character is
      not a digit. The empty string has value 0. */
  function DecimalValue(s: string): (r: Option<nat>)
    ensures r.Some? <==> AllDigits(s)
    ensures r.Some? ==> r.value < Pow10(|s|)
  {
    if s == "" then Some(0)
    else
      var last := s[|s| - 1];
      match DecimalValue(s[..|s| - 1])
      case None => None
      case Some(v) =>
        if IsDigit(last) then Some(10 * v + (last as int - '0' as int))
        else None
  }

  /** A string of digits is the zero-padded rendering of its value: a
      field `strptime` accepts is exactly the digits it was read from. */
  lemma {:induction false} DigitsOfDecimalValue(t: string)
    requires AllDigits(t)
    ensures Digits(DecimalValue(t).value, |t|) == t
  {
    if t != "" {
      var init, last := t[..|t| - 1], t[|t| - 1];
      DigitsOfDecimalValue(init);
      var v := DecimalValue(init).value;
      var d := last as int - '0' as int;
      assert DecimalValue(t).value == 10 * v + d;
      assert (10 * v + d) / 10 == v && (10 * v + d) % 10 == d;
      assert t == init + [last];
    }
  }

  /** Reading a zero-padded field back gives the number that was written. */
  lemma {:induction false} DecimalValueOfDigits(n: nat, width: nat)
    requires n < Pow10(width)
    ensures DecimalValue(Digits(n, width)) == Some(n)
  {
    if width > 0 {
      var s := Digits(n, width);
      assert s[..|s| - 1] == Digits(n / 10, width - 1);
      DecimalValueOfDigits(n / 10, width - 1);
    }
  }
}
