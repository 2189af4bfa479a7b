/** Postal-code normalisation shared by `clean_listings` and
    `clean_demographics`: strip, left-pad with zeros to five characters with
    Python `str.zfill`, and take the first three characters as `zip_prefix`. */
module Postal {
  import opened Text

  const CodeWidth: nat := 5
  const PrefixWidth: nat := 3

  function Zeros(n: nat): (z: string)
    ensures |z| == n && forall i :: 0 <= i < n ==> z[i] == '0'
  {
    seq(n, _ => '0')
  }

  predicate IsSign(c: char) {
    c == '+' || c == '-'
  }

  /** Python `str.zfill(width)`: pad on the left with '0' up to `width`; a
      leading sign stays in front of the zeros. */
  function Zfill(s: string, width: nat): (r: string)
    ensures |s| >= width ==> r == s
    ensures |r| == if |s| >= width then |s| else width
    ensures |s| < width && (|s| == 0 || !IsSign(s[0])) ==>
      r[|r| - |s|..] == s && r[..|r| - |s|] == Zeros(width - |s|)
    ensures |s| < width && |s| > 0 && IsSign(s[0]) ==>
      r[0] == s[0] && r[1..|r| - |s| + 1] == Zeros(width - |s|) && r[|r| - |s| + 1..] == s[1..]
  {
    if |s| >= width then s
    else
      var z := Zeros(width - |s|);
      if |s| > 0 && IsSign(s[0]) then
        var r := [s[0]] + z + s[1..];
        assert r[1..|r| - |s| + 1] == z;
        r
      else
        var r := z + s;
        assert r[|r| - |s|..] == s;
        r
  }

  /** The lambda applied to every stripped code: `zfill(5)` only when shorter. */
  function PadCode(x: string): (r: string)
    ensures |r| == if |x| >= CodeWidth then |x| else CodeWidth
    ensures |x| >= CodeWidth ==> r == x
  {
    if |x| < CodeWidth then Zfill(x, CodeWidth) else x
  }

  /** `astype(str).str.strip()` followed by the padding lambda. */
  function CleanCode(raw: string): (code: string)
    ensures |code| >= CodeWidth
  {
    PadCode(Strip(raw))
  }

  /** `.str[:3]`: Python slicing clamps to the string's length. */
  function ZipPrefix(code: string): (p: string)
    ensures |p| == if |code| < PrefixWidth then |code| else PrefixWidth
    ensures p <= code
  {
    if |code| < PrefixWidth then code else code[..PrefixWidth]
  }

  /** A short unsigned code becomes exactly five characters: zeros followed by
      the code itself. */
  lemma PadUnsigned(x: string)
    requires |x| < CodeWidth && (|x| == 0 || !IsSign(x[0]))
    ensures PadCode(x) == Zeros(CodeWidth - |x|) + x
  {
    var r := PadCode(x);
    assert r == r[..|r| - |x|] + r[|r| - |x|..];
  }

  /** Padding a padded code changes nothing. */
  lemma PadIdempotent(x: string)
    ensures PadCode(PadCode(x)) == PadCode(x)
  {
  }

  /** Cleaning a cleaned code changes nothing: the cleaned code carries no
      surrounding whitespace. */
  lemma CleanCodeIdempotent(raw: string)
    ensures CleanCode(CleanCode(raw)) == CleanCode(raw)
  {
    PadKeepsEnds(Strip(raw));
    StripNoop(CleanCode(raw));
  }

  /** Padding puts zeros or a sign in front, so it never creates surrounding
      whitespace. */
  lemma PadKeepsEnds(x: string)
    requires |x| > 0 ==> !IsSpace(x[0]) && !IsSpace(x[|x| - 1])
    ensures var r := PadCode(x); !IsSpace(r[0]) && !IsSpace(r[|r| - 1])
  {
    var r := PadCode(x);
    if |x| < CodeWidth {
      if |x| > 0 && IsSign(x[0]) {
        assert r[0] == x[0];
        if |x| > 1 {
          assert r[|r| - 1] == r[|r| - |x| + 1..][|x| - 2];
        }
      } else {
        assert r[0] == r[..|r| - |x|][0];
        assert |x| == 0 || r[|r| - 1] == r[|r| - |x|..][|x| - 1];
      }
    }
  }

  /** A code whose ends are not whitespace is its own strip. */
  lemma StripNoop(s: string)
    requires |s| > 0 ==> !IsSpace(s[0]) && !IsSpace(s[|s| - 1])
    ensures Strip(s) == s
  {
  }

  /** Every cleaned code has a three-character prefix that starts it. */
  lemma PrefixOfCleanCode(raw: string)
    ensures |ZipPrefix(CleanCode(raw))| == PrefixWidth
    ensures ZipPrefix(CleanCode(raw)) == CleanCode(raw)[..PrefixWidth]
  {
  }

  lemma ExampleShortCode()
    ensures CleanCode("501") == "00501"
    ensures ZipPrefix(CleanCode("501")) == "005"
  {
    assert Strip("501") == "501" by {
      StripNoop("501");
    }
    PadUnsigned("501");
    assert Zeros(2) == "00";
  }

  lemma ExampleSignedCode()
    ensures PadCode("-12") == "-0012"
  {
    var r := PadCode("-12");
    assert r[1..3] == Zeros(2) == "00";
    assert r[3..] == "12";
    assert r == r[..1] + r[1..3] + r[3..];
  }
}
