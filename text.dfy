/**
 * Character-level helpers of the Hack assembler: comment removal, the
 * whitespace trimming of Python 2's `str.strip()`, the symbol grammar and
 * decimal numerals (`int(...)` and `"%d"`).
 */
module Text {
  import opened Wrappers

  /** The characters Python 2's `str.strip()` removes from byte strings. */
  predicate IsWhitespace(c: char) {
    c == ' ' || c == '\t' || c == '\n' || c == '\r' || c == '\U{B}' || c == '\U{C}'
  }

  predicate AllWhitespace(s: string) {
    forall i :: 0 <= i < |s| ==> IsWhitespace(s[i])
  }

  /** True when `s` contains the comment marker `//`. */
  predicate HasCommentMarker(s: string) {
    exists i :: 0 <= i < |s| - 1 && s[i] == '/' && s[i + 1] == '/'
  }

  /**
   * `line[:line.index("//")]`, or the whole line when it has no `//`:
   * the longest prefix that does not contain the marker, cut exactly where
   * the first marker starts.
   */
  function RemoveTrailingComment(line: string): (r: string)
    ensures |r| <= |line| && r == line[..|r|]
    ensures !HasCommentMarker(r)
    ensures |r| < |line| ==> |r| + 2 <= |line| && line[|r|] == '/' && line[|r| + 1] == '/'
    ensures |r| < |line| ==> !HasCommentMarker(line[..|r| + 1])
  {
    if |line| < 2 then line
    else if line[0] == '/' && line[1] == '/' then ""
    else [line[0]] + RemoveTrailingComment(line[1..])
  }

  /** Drops leading whitespace: the result is the suffix of `s` after it. */
  function TrimLeft(s: string): (r: string)
    ensures |r| <= |s| && r == s[|s| - |r|..]
    ensures AllWhitespace(s[..|s| - |r|])
    ensures |r| == 0 || !IsWhitespace(r[0])
  {
    if |s| > 0 && IsWhitespace(s[0]) then
      var r := TrimLeft(s[1..]);
      assert s[..|s| - |r|] == [s[0]] + s[1..][..|s| - 1 - |r|];
      r
    else s
  }

  /** Drops trailing whitespace: the result is the prefix of `s` before it. */
  function TrimRight(s: string): (r: string)
    ensures |r| <= |s| && r == s[..|r|]
    ensures AllWhitespace(s[|r|..])
    ensures |r| == 0 || !IsWhitespace(r[|r| - 1])
  {
    if |s| > 0 && IsWhitespace(s[|s| - 1]) then TrimRight(s[..|s| - 1]) else s
  }

  /** `str.strip()`. */
  function Strip(s: string): string {
    TrimRight(TrimLeft(s))
  }

  /** The text every grammar is matched against: `RemoveTrailingComment(line).strip()`. */
  function Normalize(line: string): string {
    Strip(RemoveTrailingComment(line))
  }

  /** A string with no whitespace at either end. */
  predicate IsTrimmed(s: string) {
    |s| == 0 || (!IsWhitespace(s[0]) && !IsWhitespace(s[|s| - 1]))
  }

  /**
   * Strip removes exactly the surrounding whitespace: padding a trimmed
   * text with whitespace on both sides and stripping gives the text back.
   */
  lemma StripPadded(pre: string, core: string, post: string)
    requires AllWhitespace(pre) && AllWhitespace(post) && IsTrimmed(core)
    ensures Strip(pre + core + post) == core
  {
    if |core| == 0 {
      StripBlank(pre, post);
      assert pre + core + post == pre + post;
    } else {
      StripAroundText(pre, core, post);
    }
  }

  lemma StripBlank(pre: string, post: string)
    requires AllWhitespace(pre) && AllWhitespace(post)
    ensures Strip(pre + post) == []
  {
    assert pre + post == (pre + post) + [];
    TrimLeftPadded(pre + post, []);
  }

  lemma StripAroundText(pre: string, core: string, post: string)
    requires AllWhitespace(pre) && AllWhitespace(post) && IsTrimmed(core) && |core| > 0
    ensures Strip(pre + core + post) == core
  {
    assert pre + core + post == pre + (core + post);
    TrimLeftPadded(pre, core + post);
    TrimRightPadded(core, post);
  }

  lemma {:induction false} TrimLeftPadded(pre: string, rest: string)
    requires AllWhitespace(pre)
    requires |rest| == 0 || !IsWhitespace(rest[0])
    ensures TrimLeft(pre + rest) == rest
  {
    if |pre| > 0 {
      assert (pre + rest)[1..] == pre[1..] + rest;
      TrimLeftPadded(pre[1..], rest);
    }
  }

  lemma {:induction false} TrimRightPadded(core: string, post: string)
    requires AllWhitespace(post)
    requires |core| == 0 || !IsWhitespace(core[|core| - 1])
    ensures TrimRight(core + post) == core
  {
    if |post| > 0 {
      var p := post[..|post| - 1];
      assert (core + post)[..|core + post| - 1] == core + p;
      TrimRightPadded(core, p);
    } else {
      assert core + post == core;
    }
  }

  /** A text without `/` is left alone by comment removal. */
  lemma {:induction false} NoSlashNoComment(s: string)
    requires '/' !in s
    ensures RemoveTrailingComment(s) == s
  {
    if |s| >= 2 {
      assert s[0] != '/';
      assert '/' !in s[1..];
      NoSlashNoComment(s[1..]);
    }
  }

  /**
   * Comments and surrounding whitespace do not reach the grammars: a trimmed
   * text without `/`, padded with whitespace and followed by an optional
   * comment, normalises back to itself.
   */
  lemma CommentAndPaddingIgnored(pre: string, core: string, post: string, comment: string)
    requires AllWhitespace(pre) && AllWhitespace(post) && IsTrimmed(core) && '/' !in core
    ensures Normalize(pre + core + post) == core
    ensures Normalize(pre + core + post + "//" + comment) == core
  {
    assert '/' !in pre + core + post by {
      forall i | 0 <= i < |pre + core + post|
        ensures (pre + core + post)[i] != '/'
      {
        if i < |pre| { assert IsWhitespace(pre[i]); }
        else if i < |pre| + |core| { assert core[i - |pre|] in core; }
        else { assert IsWhitespace(post[i - |pre| - |core|]); }
      }
    }
    NoSlashNoComment(pre + core + post);
    StripPadded(pre, core, post);
    CutAtFirstMarker(pre + core + post, comment);
  }

  /** A line that is only a comment normalises to nothing. */
  lemma CommentOnly(comment: string)
    ensures |Normalize("//" + comment)| == 0
  {
    var line := "//" + comment;
    assert line[0] == '/' && line[1] == '/';
    assert |RemoveTrailingComment(line)| == 0;
  }

  /**
   * The lines that normalise to nothing are exactly the blank lines and the
   * lines that are only a comment, possibly indented.
   */
  lemma BlankNormalForm(line: string)
    ensures |Normalize(line)| == 0
        <==> AllWhitespace(line) || exists pre, comment :: AllWhitespace(pre) && line == pre + "//" + comment
  {
    if AllWhitespace(line) {
      BlankLineNormal(line);
    }
    if exists pre, comment :: AllWhitespace(pre) && line == pre + "//" + comment {
      var pre, comment :| AllWhitespace(pre) && line == pre + "//" + comment;
      CommentLineNormal(pre, comment);
    }
    if |Normalize(line)| == 0 {
      NormalBlank(line);
    }
  }

  lemma BlankLineNormal(line: string)
    requires AllWhitespace(line)
    ensures |Normalize(line)| == 0
  {
    CommentAndPaddingIgnored(line, "", "", "");
    assert line + "" + "" == line;
  }

  lemma CommentLineNormal(pre: string, comment: string)
    requires AllWhitespace(pre)
    ensures |Normalize(pre + "//" + comment)| == 0
  {
    CommentAndPaddingIgnored(pre, "", "", comment);
    assert pre + "" + "" + "//" + comment == pre + "//" + comment;
  }

  lemma NormalBlank(line: string)
    requires |Normalize(line)| == 0
    ensures AllWhitespace(line) || exists pre, comment :: AllWhitespace(pre) && line == pre + "//" + comment
  {
    var r := RemoveTrailingComment(line);
    StripEmpty(r);
    if |r| < |line| {
      var comment := line[|r| + 2..];
      assert line == r + "//" + comment;
    } else {
      assert r == line;
    }
  }

  /** Only whitespace strips down to nothing. */
  lemma StripEmpty(s: string)
    requires |Strip(s)| == 0
    ensures AllWhitespace(s)
  {
    var t := TrimLeft(s);
    var r := TrimRight(t);
    assert |r| == 0 && t[|r|..] == t;
    assert |t| == 0;
    assert s[..|s| - |t|] == s;
  }

  /** `@` and a digit run is its own normal form. */
  lemma NumberLineClean(d: string)
    requires IsDigits(d)
    ensures Normalize("@" + d) == "@" + d
  {
    var s := "@" + d;
    assert '/' !in s by {
      forall i | 0 <= i < |s| ensures s[i] != '/' {
        if i > 0 { assert IsDigit(d[i - 1]); }
      }
    }
    assert !IsWhitespace(s[|s| - 1]) by {
      assert IsDigit(d[|d| - 1]);
    }
    NormalizeClean(s);
  }

  /** A trimmed text without `/` is its own normal form. */
  lemma NormalizeClean(s: string)
    requires IsTrimmed(s) && '/' !in s
    ensures Normalize(s) == s
  {
    NoSlashNoComment(s);
    assert "" + s + "" == s;
    StripPadded("", s, "");
  }

  lemma {:induction false} CutAtFirstMarker(s: string, comment: string)
    requires '/' !in s
    ensures RemoveTrailingComment(s + "//" + comment) == s
  {
    if |s| > 0 {
      assert (s + "//" + comment)[1..] == s[1..] + "//" + comment;
      assert s[0] in s;
      assert '/' !in s[1..];
      CutAtFirstMarker(s[1..], comment);
    }
  }

  /**
   * Splits `s` at the first `c`: the text before it, and the text after it
   * when there is one (`None` when `c` does not occur).
   */
  function Cut(s: string, c: char): (r: (string, Option<string>))
    ensures c !in r.0
    ensures r.1.None? ==> r.0 == s
    ensures r.1.Some? ==> s == r.0 + [c] + r.1.value
  {
    if |s| == 0 then ("", None)
    else if s[0] == c then ("", Some(s[1..]))
    else
      var (before, after) := Cut(s[1..], c);
      ([s[0]] + before, after)
  }

  /** The split is determined: cutting `x c y` with `c` not in `x` gives `x` and `y`. */
  lemma {:induction false} CutJoined(x: string, c: char, y: string)
    requires c !in x
    ensures Cut(x + [c] + y, c) == (x, Some(y))
  {
    if |x| > 0 {
      assert (x + [c] + y)[1..] == x[1..] + [c] + y;
      assert x[0] in x && c !in x[1..];
      CutJoined(x[1..], c, y);
      assert [x[0]] + x[1..] == x;
    }
  }

  /** Cutting a text without `c` leaves it whole. */
  lemma {:induction false} CutAbsent(x: string, c: char)
    requires c !in x
    ensures Cut(x, c) == (x, None)
  {
    if |x| > 0 {
      assert x[0] in x;
      CutAbsent(x[1..], c);
    }
  }

  /** `x` occurs in `list`: membership in one of the assembler's fixed tables. */
  predicate Member(x: string, list: seq<string>) {
    exists i :: 0 <= i < |list| && list[i] == x
  }

  // ---------------------------------------------------------------------
  // Symbols: [a-zA-Z_$.:][a-zA-Z0-9_$.:]*

  predicate IsDigit(c: char) {
    '0' <= c <= '9'
  }

  predicate IsSymbolStart(c: char) {
    ('a' <= c <= 'z') || ('A' <= c <= 'Z') || c == '_' || c == '$' || c == '.' || c == ':'
  }

  predicate IsSymbolChar(c: char) {
    IsSymbolStart(c) || IsDigit(c)
  }

  predicate IsSymbol(s: string) {
    |s| > 0 && IsSymbolStart(s[0]) && forall i :: 1 <= i < |s| ==> IsSymbolChar(s[i])
  }

  // ---------------------------------------------------------------------
  // Decimal numerals

  /** Python 2's `str.isdigit()` on a byte string: non-empty and all digits. */
  predicate IsDigits(s: string) {
    |s| > 0 && forall i :: 0 <= i < |s| ==> IsDigit(s[i])
  }

  predicate OnlyDigits(s: string) {
    forall i :: 0 <= i < |s| ==> IsDigit(s[i])
  }

  function DigitValue(c: char): nat
    requires IsDigit(c)
  {
    (c as int) - ('0' as int)
  }

  function DigitChar(d: nat): (c: char)
    requires d < 10
    ensures IsDigit(c) && DigitValue(c) == d
  {
    (('0' as int) + d) as char
  }

  /** `int(s)` for a run of decimal digits, most significant first. */
  function DecimalValue(s: string): nat
    requires OnlyDigits(s)
  {
    if |s| == 0 then 0 else 10 * DecimalValue(s[..|s| - 1]) + DigitValue(s[|s| - 1])
  }

  /** `"%d" % n`. */
  function DecimalString(n: nat): (r: string)
    ensures IsDigits(r)
    ensures |r| > 1 ==> r[0] != '0'
  {
    if n < 10 then [DigitChar(n)] else DecimalString(n / 10) + [DigitChar(n % 10)]
  }

  /** Reading back a formatted number gives the number. */
  lemma {:induction false} DecimalRoundTrip(n: nat)
    ensures DecimalValue(DecimalString(n)) == n
  {
    if n >= 10 {
      var s := DecimalString(n);
      assert s[..|s| - 1] == DecimalString(n / 10);
      DecimalRoundTrip(n / 10);
    }
  }
}
