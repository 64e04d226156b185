/**
 String.prototype.trim as the name source uses it: strip, from both ends,
 every code point that ECMAScript counts as WhiteSpace or LineTerminator.
 */
module Text {

  /** Code points of WhiteSpace (section 12.2 of ECMAScript 2023: TAB, VT,
      FF, ZWNBSP and every Unicode "Zs" space) and LineTerminator (section
      12.3: LF, CR, LS, PS). */
  const WhitespaceCodes: set<int> :=
    {0x09, 0x0A, 0x0B, 0x0C, 0x0D, 0x20, 0xA0, 0x1680,
     0x2000, 0x2001, 0x2002, 0x2003, 0x2004, 0x2005, 0x2006, 0x2007, 0x2008, 0x2009, 0x200A,
     0x2028, 0x2029, 0x202F, 0x205F, 0x3000, 0xFEFF}

  predicate IsWhitespace(c: char) {
    c as int in WhitespaceCodes
  }

  ghost predicate AllWhitespace(s: string) {
    forall k :: 0 <= k < |s| ==> IsWhitespace(s[k])
  }

  /** Neither the first nor the last character is whitespace. */
  ghost predicate Trimmed(s: string) {
    |s| == 0 || (!IsWhitespace(s[0]) && !IsWhitespace(s[|s| - 1]))
  }

  /** String.prototype.trimStart: the suffix left after the leading
      whitespace run. */
  function TrimStart(s: string): (r: string)
    ensures |r| <= |s| && r == s[|s| - |r|..]
    ensures AllWhitespace(s[..|s| - |r|])
    ensures |r| == 0 || !IsWhitespace(r[0])
  {
    if |s| > 0 && IsWhitespace(s[0]) then TrimStart(s[1..]) else s
  }

  /** Text that does not start with whitespace is its own trimStart. */
  lemma TrimStartKeeps(s: string)
    requires |s| > 0 && !IsWhitespace(s[0])
    ensures TrimStart(s) == s
  {
  }

  /** String.prototype.trimEnd: the prefix left before the trailing
      whitespace run. */
  function TrimEnd(s: string): (r: string)
    ensures |r| <= |s| && r == s[..|r|]
    ensures AllWhitespace(s[|r|..])
    ensures |r| == 0 || !IsWhitespace(r[|r| - 1])
  {
    if |s| > 0 && IsWhitespace(s[|s| - 1]) then
      var r := TrimEnd(s[..|s| - 1]);
      assert r == s[..|r|];
      assert s[|r|..] == s[..|s| - 1][|r|..] + [s[|s| - 1]];
      r
    else s
  }

  /** `r` sits in `s` at offset `i` with only whitespace around it. */
  ghost predicate PaddedBy(s: string, r: string, i: int) {
    0 <= i <= |s| - |r| && s[i..i + |r|] == r
    && AllWhitespace(s[..i]) && AllWhitespace(s[i + |r|..])
  }

  /** String.prototype.trim: the result has no whitespace at either end. */
  function Trim(s: string): (r: string)
    ensures Trimmed(r)
    ensures |r| <= |s|
  {
    var t := TrimStart(s);
    var r := TrimEnd(t);
    assert |r| > 0 ==> r[0] == t[0];
    r
  }

  /** `s` is the trimmed string with whitespace padding on both sides, and
      the trimmed string is empty exactly when `s` is all whitespace. */
  lemma TrimSlices(s: string)
    ensures exists i :: PaddedBy(s, Trim(s), i)
    ensures |Trim(s)| == 0 <==> AllWhitespace(s)
  {
    var t := TrimStart(s);
    var r := TrimEnd(t);
    var i := |s| - |t|;
    assert r == Trim(s);
    assert s[i + |r|..] == t[|r|..];
    assert s[i..i + |r|] == t[..|r|];
    assert PaddedBy(s, r, i);
    assert |r| == 0 ==> AllWhitespace(s) by {
      if |r| == 0 {
        forall k | 0 <= k < |s| ensures IsWhitespace(s[k]) {
          assert s[k] == s[..i][k];
        }
      }
    }
  }

  /** trimStart drops exactly a leading whitespace run. */
  lemma {:induction false} TrimStartPadding(a: string, t: string)
    requires AllWhitespace(a) && (|t| == 0 || !IsWhitespace(t[0]))
    ensures TrimStart(a + t) == t
  {
    if |a| == 0 {
      assert a + t == t;
    } else {
      assert (a + t)[1..] == a[1..] + t;
      TrimStartPadding(a[1..], t);
    }
  }

  /** trimEnd drops exactly a trailing whitespace run. */
  lemma {:induction false} TrimEndPadding(t: string, b: string)
    requires AllWhitespace(b) && (|t| == 0 || !IsWhitespace(t[|t| - 1]))
    ensures TrimEnd(t + b) == t
  {
    if |b| == 0 {
      assert t + b == t;
    } else {
      assert (t + b)[..|t + b| - 1] == t + b[..|b| - 1];
      TrimEndPadding(t, b[..|b| - 1]);
    }
  }

  /** Trim removes exactly the whitespace padding around an already trimmed
      core: this characterises Trim independently of how it scans. */
  lemma TrimPadding(a: string, m: string, b: string)
    requires AllWhitespace(a) && AllWhitespace(b) && Trimmed(m)
    ensures Trim(a + m + b) == m
  {
    if |m| == 0 {
      var s := a + m + b;
      assert AllWhitespace(s) by {
        forall k | 0 <= k < |s| ensures IsWhitespace(s[k]) {
          if k < |a| { assert s[k] == a[k]; } else { assert s[k] == b[k - |a|]; }
        }
      }
    } else {
      assert a + m + b == a + (m + b);
      TrimStartPadding(a, m + b);
      TrimEndPadding(m, b);
    }
  }

  /** Trimming twice is trimming once. */
  lemma TrimIdempotent(s: string)
    ensures Trim(Trim(s)) == Trim(s)
  {
    var m := Trim(s);
    assert TrimStart(m) == m;
    assert TrimEnd(m) == m;
  }
}
