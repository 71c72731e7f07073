/**
 * The parts of the ECMAScript string library the handler relies on:
 * the white-space class shared by `\s` in regular expressions and by
 * `String.prototype.trim` (the WhiteSpace and LineTerminator productions of
 * ECMA-262, section 12.2 and 12.3), `startsWith`, `trim`, and the greedy
 * `^web\s*` replacement.
 */
module JsString {

  /** The class matched by `\s` and removed by `trim`: ECMA-262 WhiteSpace
      (TAB, VT, FF, SP, NBSP, ZWNBSP and the other Unicode Zs code points)
      together with LineTerminator (LF, CR, LS, PS). */
  predicate IsWhitespace(c: char) {
    var n := c as int;
    n == 0x09 || n == 0x0A || n == 0x0B || n == 0x0C || n == 0x0D
    || n == 0x20 || n == 0xA0 || n == 0x1680
    || (0x2000 <= n <= 0x200A)
    || n == 0x2028 || n == 0x2029 || n == 0x202F || n == 0x205F
    || n == 0x3000 || n == 0xFEFF
  }

  predicate AllWhitespace(s: string) {
    forall i :: 0 <= i < |s| ==> IsWhitespace(s[i])
  }

  /** Neither end of `s` is a white-space character. */
  predicate IsTrimmed(s: string) {
    s == [] || (!IsWhitespace(s[0]) && !IsWhitespace(s[|s| - 1]))
  }

  /** `s` is `q` starting at index `i`, with only white space before and after. */
  predicate PadsAt(s: string, q: string, i: int) {
    0 <= i <= |s| - |q| && s[i..i + |q|] == q
    && AllWhitespace(s[..i]) && AllWhitespace(s[i + |q|..])
  }

  /** `s` is `q` with white space (possibly none) on either side. */
  ghost predicate Pads(s: string, q: string) {
    exists i :: PadsAt(s, q, i)
  }

  /** `String.prototype.startsWith(p)` at position 0. */
  predicate StartsWith(s: string, p: string) {
    |p| <= |s| && s[..|p|] == p
  }

  /** Drops the longest white-space prefix. */
  function TrimStart(s: string): (r: string)
    ensures |r| <= |s| && r == s[|s| - |r|..]
    ensures AllWhitespace(s[..|s| - |r|])
    ensures r == [] || !IsWhitespace(r[0])
    decreases |s|
  {
    if s != [] && IsWhitespace(s[0]) then TrimStart(s[1..]) else s
  }

  /** Drops the longest white-space suffix. */
  function TrimEnd(s: string): (r: string)
    ensures |r| <= |s| && r == s[..|r|]
    ensures AllWhitespace(s[|r|..])
    ensures r == [] || !IsWhitespace(r[|r| - 1])
    decreases |s|
  {
    if s != [] && IsWhitespace(s[|s| - 1]) then TrimEnd(s[..|s| - 1]) else s
  }

  /** `String.prototype.trim`: white space removed at both ends. */
  function Trim(s: string): (r: string)
    ensures IsTrimmed(r)
    ensures Pads(s, r)
  {
    var t := TrimStart(s);
    var r := TrimEnd(t);
    var i := |s| - |t|;
    assert s[i..i + |r|] == r;
    assert s[i + |r|..] == t[|r|..];
    assert PadsAt(s, r, i);
    r
  }

  // `s.replace(/^web\s*/, "")` with `p` for `web`: when `s` begins with `p`,
  // the match removes `p` and the longest run of white space after it (`\s*`
  // is greedy); otherwise nothing matches and `s` is returned unchanged.
  function ReplaceLeading(s: string, p: string): (r: string)
    ensures !StartsWith(s, p) ==> r == s
    ensures StartsWith(s, p) ==>
      |p| + |r| <= |s| && r == s[|s| - |r|..]
      && AllWhitespace(s[|p|..|s| - |r|])
      && (r == [] || !IsWhitespace(r[0]))
  {
    if StartsWith(s, p) then
      var r := TrimStart(s[|p|..]);
      assert s[|p|..][..|s| - |p| - |r|] == s[|p|..|s| - |r|];
      r
    else s
  }

  lemma {:induction false} TrimStartSkips(a: string, x: string)
    requires AllWhitespace(a)
    requires x == [] || !IsWhitespace(x[0])
    ensures TrimStart(a + x) == x
    decreases |a|
  {
    if a == [] {
      assert a + x == x;
    } else {
      assert (a + x)[1..] == a[1..] + x;
      TrimStartSkips(a[1..], x);
    }
  }

  lemma {:induction false} TrimEndSkips(x: string, b: string)
    requires AllWhitespace(b)
    requires x == [] || !IsWhitespace(x[|x| - 1])
    ensures TrimEnd(x + b) == x
    decreases |b|
  {
    if b == [] {
      assert x + b == x;
    } else {
      assert (x + b)[..|x + b| - 1] == x + b[..|b| - 1];
      TrimEndSkips(x, b[..|b| - 1]);
    }
  }

  /** The strip removes exactly a white-space run that precedes non-white space. */
  lemma ReplaceLeadingSkips(s: string, p: string, a: string, x: string)
    requires StartsWith(s, p) && s[|p|..] == a + x
    requires AllWhitespace(a) && (x == [] || !IsWhitespace(x[0]))
    ensures ReplaceLeading(s, p) == x
  {
    TrimStartSkips(a, x);
  }

  /** Trailing white space is all `Trim` removes from a string whose first
      and last characters before it are not white space. */
  lemma TrimDropsTrailing(q: string, b: string)
    requires AllWhitespace(b) && q != [] && IsTrimmed(q)
    ensures Trim(q + b) == q
  {
    assert [] + (q + b) == q + b;
    TrimStartSkips([], q + b);
    TrimEndSkips(q, b);
  }

  lemma TrimPadded(a: string, q: string, b: string)
    requires AllWhitespace(a) && AllWhitespace(b) && IsTrimmed(q)
    ensures Trim(a + q + b) == q
  {
    if q == [] {
      assert a + q + b == (a + b) + q;
      assert AllWhitespace(a + b);
      TrimStartSkips(a + b, q);
      TrimEndSkips(q, q);
    } else {
      assert a + q + b == a + (q + b);
      TrimStartSkips(a, q + b);
      TrimEndSkips(q, b);
    }
  }

  /** `Trim` returns the one trimmed string that `s` pads: its result is
      determined by `Pads`. */
  lemma TrimUnique(s: string, q: string)
    requires IsTrimmed(q) && Pads(s, q)
    ensures Trim(s) == q
  {
    var i :| PadsAt(s, q, i);
    assert s == s[..i] + s[i..i + |q|] + s[i + |q|..];
    TrimPadded(s[..i], q, s[i + |q|..]);
  }

  /** White space added in front keeps `s` padding `q`. */
  lemma PadsExtend(lead: string, s: string, q: string)
    requires AllWhitespace(lead) && Pads(s, q)
    ensures Pads(lead + s, q)
  {
    var i :| PadsAt(s, q, i);
    var t := lead + s;
    var j := |lead| + i;
    assert t[j..j + |q|] == s[i..i + |q|];
    assert t[..j] == lead + s[..i];
    assert t[j + |q|..] == s[i + |q|..];
    assert PadsAt(t, q, j);
  }

  /** Trimming is idempotent: a trimmed string is its own trim. */
  lemma TrimIdempotent(s: string)
    ensures Trim(Trim(s)) == Trim(s)
  {
    var r := Trim(s);
    assert r[0..0 + |r|] == r && r[..0] == [] && r[0 + |r|..] == [];
    assert PadsAt(r, r, 0);
    TrimUnique(r, r);
  }
}
