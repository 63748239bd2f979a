/**
  The two identifier patterns of the Zipkin entities, `[a-f0-9]{16,32}` and
  `[a-f0-9]{16}`, used through `Regex::is_match`. `is_match` is unanchored:
  it reports whether SOME substring of the input matches, so the acceptance
  set is "the input contains a long enough run of lower-case hex digits",
  whatever surrounds it.
*/
module HexPattern {

  /** The character class `[a-f0-9]`. */
  predicate IsLowerHex(c: char)
  {
    ('a' <= c <= 'f') || ('0' <= c <= '9')
  }

  /** `s[i..i + n]` lies inside `s` and every character of it is in `[a-f0-9]`. */
  predicate HexRunAt(s: string, i: nat, n: nat)
  {
    i + n <= |s| && forall j :: i <= j < i + n ==> IsLowerHex(s[j])
  }

  /**
    Unanchored `is_match` of `[a-f0-9]{lo,hi}`: some substring of length `n`,
    `lo <= n <= hi`, consists of hex digits only.
  */
  predicate IsMatch(s: string, lo: nat, hi: nat)
  {
    exists i: nat, n: nat | i <= |s| && lo <= n <= hi :: HexRunAt(s, i, n)
  }

  /** The input has a run of at least `k` consecutive `[a-f0-9]` characters. */
  predicate ContainsHexRun(s: string, k: nat)
  {
    exists i: nat | i <= |s| :: HexRunAt(s, i, k)
  }

  /**
    The bounds of a repetition do not matter to an unanchored match beyond
    its minimum: `[a-f0-9]{lo,hi}` matches exactly the inputs with a hex run
    of length `lo`.
  */
  lemma IsMatchIffRun(s: string, lo: nat, hi: nat)
    requires lo <= hi
    ensures IsMatch(s, lo, hi) <==> ContainsHexRun(s, lo)
  {
    if IsMatch(s, lo, hi) {
      var i: nat, n: nat :| i <= |s| && lo <= n <= hi && HexRunAt(s, i, n);
      forall j | i <= j < i + lo
        ensures IsLowerHex(s[j])
      {
        assert i <= j < i + n;
      }
      assert HexRunAt(s, i, lo);
    }
    if ContainsHexRun(s, lo) {
      var i: nat :| i <= |s| && HexRunAt(s, i, lo);
      assert lo <= lo <= hi && HexRunAt(s, i, lo);
    }
  }

  /** The two Zipkin patterns accept exactly the same inputs. */
  lemma TraceIdAndIdPatternsAgree(s: string)
    ensures IsMatch(s, 16, 32) <==> IsMatch(s, 16, 16)
  {
    IsMatchIffRun(s, 16, 32);
    IsMatchIffRun(s, 16, 16);
  }

  /**
    A hex window ending at `e` fits in the maximal hex run ending there, whose
    length is `run`.
  */
  lemma WindowWithinRun(s: string, e: nat, run: nat, a: nat)
    requires e <= |s| && run <= e && HexRunAt(s, e - run, run)
    requires e - run == 0 || !IsLowerHex(s[e - run - 1])
    requires a <= e
    ensures HexRunAt(s, a, e - a) ==> e - a <= run
  {
  }

  /**
    A left-to-right scan deciding `ContainsHexRun`: `run` is the length of the
    longest hex run ending just before position `i`.
  */
  method FindHexRun(s: string, k: nat) returns (found: bool)
    ensures found <==> ContainsHexRun(s, k)
  {
    if k == 0 {
      assert HexRunAt(s, 0, 0);
      return true;
    }
    var run: nat := 0;
    var i: nat := 0;
    while i < |s|
      invariant i <= |s|
      invariant run <= i && run < k
      invariant HexRunAt(s, i - run, run)
      invariant i - run == 0 || !IsLowerHex(s[i - run - 1])
      invariant forall a: nat :: a + k <= i ==> !HexRunAt(s, a, k)
    {
      if IsLowerHex(s[i]) {
        run := run + 1;
      } else {
        run := 0;
      }
      i := i + 1;
      if run == k {
        assert HexRunAt(s, i - k, k);
        return true;
      }
      if k <= i {
        WindowWithinRun(s, i, run, i - k);
      }
    }
    return false;
  }

  /** Surrounding text is ignored: a valid identifier embedded anywhere is accepted. */
  lemma RunSurvivesContext(pre: string, s: string, post: string, k: nat)
    requires ContainsHexRun(s, k)
    ensures ContainsHexRun(pre + s + post, k)
  {
    var i: nat :| i <= |s| && HexRunAt(s, i, k);
    var t := pre + s + post;
    forall j | |pre| + i <= j < |pre| + i + k
      ensures IsLowerHex(t[j])
    {
      assert t[j] == s[j - |pre|];
    }
    assert HexRunAt(t, |pre| + i, k);
  }

  /** Upper-case hex digits are outside the class: sixteen `A`s do not match. */
  lemma UpperCaseRejected()
    ensures !ContainsHexRun("AAAAAAAAAAAAAAAA", 16)
  {
    var s := "AAAAAAAAAAAAAAAA";
    assert !IsLowerHex(s[0]);
  }

  /** Fifteen hex digits are one too few. */
  lemma FifteenRejected()
    ensures !ContainsHexRun("0123456789abcde", 16)
  {
  }

  /** A hex run inside other text is accepted. */
  lemma EmbeddedRunAccepted()
    ensures ContainsHexRun("span-0123456789abcdef!", 16)
  {
    var s := "span-0123456789abcdef!";
    assert HexRunAt(s, 5, 16);
  }
}
