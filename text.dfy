/** String helpers of app.js: `escapeHtml` and `getDifficultyStars`
    (app.js:142-144), the `m:ss` countdown text of `updateTimerUI`
    (app.js:920-921), and the pieces of JavaScript's string library the store
    relies on (`trim`, `toLowerCase`, `String(n)`, `Number(s)`). */
module Text {
  import opened Domain

  // ---------------------------------------------------------------------
  // String.prototype.trim

  /** The characters JavaScript's `trim` removes: WhiteSpace and
      LineTerminator of ECMA-262 (Unicode category Zs included). */
  predicate IsSpace(c: char) {
    c == ' ' || c == '\t' || c == '\n' || c == '\U{000B}' || c == '\U{000C}' ||
    c == '\r' || c == '\U{00A0}' || c == '\U{1680}' || ('\U{2000}' <= c <= '\U{200A}') ||
    c == '\U{2028}' || c == '\U{2029}' || c == '\U{202F}' || c == '\U{205F}' ||
    c == '\U{3000}' || c == '\U{FEFF}'
  }

  predicate IsBlank(s: string) {
    forall k :: 0 <= k < |s| ==> IsSpace(s[k])
  }

  function TrimStart(s: string): (r: string)
    ensures |r| <= |s| && r == s[|s| - |r|..]
  {
    if s == [] || !IsSpace(s[0]) then s
    else TrimStart(s[1..])
  }

  function TrimEnd(s: string): (r: string)
    ensures |r| <= |s| && r == s[..|r|]
  {
    if s == [] || !IsSpace(s[|s| - 1]) then s
    else TrimEnd(s[..|s| - 1])
  }

  /** `s.trim()`: the infix of `s` left after removing leading and trailing
      white space. */
  function Trim(s: string): (r: string)
    ensures |r| <= |s|
  {
    TrimEnd(TrimStart(s))
  }

  lemma BlankCons(c: char, q: string)
    requires IsSpace(c) && IsBlank(q)
    ensures IsBlank([c] + q)
  {
    forall k | 0 <= k < |q| + 1 ensures IsSpace(([c] + q)[k]) {
      if k > 0 {
        assert ([c] + q)[k] == q[k - 1];
      }
    }
  }

  /** `TrimStart` removes exactly a blank prefix. */
  lemma {:induction false} TrimStartSpec(s: string)
    ensures IsBlank(s[..|s| - |TrimStart(s)|])
    ensures TrimStart(s) == [] || !IsSpace(TrimStart(s)[0])
  {
    if s != [] && IsSpace(s[0]) {
      TrimStartSpec(s[1..]);
      var r := TrimStart(s[1..]);
      var q := s[1..][..|s| - 1 - |r|];
      assert s[..|s| - |r|] == [s[0]] + q;
      BlankCons(s[0], q);
    } else {
      assert TrimStart(s) == s;
      assert s[..0] == [];
    }
  }

  /** `TrimEnd` removes exactly a blank suffix. */
  lemma {:induction false} TrimEndSpec(s: string)
    ensures IsBlank(s[|TrimEnd(s)|..])
    ensures TrimEnd(s) == [] || !IsSpace(TrimEnd(s)[|TrimEnd(s)| - 1])
  {
    if s != [] && IsSpace(s[|s| - 1]) {
      TrimEndSpec(s[..|s| - 1]);
      var r := TrimEnd(s[..|s| - 1]);
      assert s[|r|..] == s[..|s| - 1][|r|..] + [s[|s| - 1]];
    }
  }

  /** The trimmed string neither starts nor ends with white space. */
  lemma TrimSpec(s: string)
    ensures Trim(s) == [] || (!IsSpace(Trim(s)[0]) && !IsSpace(Trim(s)[|Trim(s)| - 1]))
  {
    var t := TrimStart(s);
    TrimStartSpec(s);
    TrimEndSpec(t);
    var r := TrimEnd(t);
    if r != [] {
      assert r[0] == t[0];
    }
  }

  lemma {:induction false} BlankTrimStart(s: string)
    requires IsBlank(s)
    ensures TrimStart(s) == []
  {
    if s != [] {
      BlankTrimStart(s[1..]);
    }
  }

  /** `line.trim() !== ''` is false exactly for all-white-space lines. */
  lemma TrimEmptyIffBlank(s: string)
    ensures Trim(s) == [] <==> IsBlank(s)
  {
    var t := TrimStart(s);
    TrimStartSpec(s);
    TrimEndSpec(t);
    if Trim(s) == [] {
      assert t[0..] == t;
      assert t == [];
      assert s[..|s|] == s;
    }
    if IsBlank(s) {
      BlankTrimStart(s);
    }
  }

  /** A string without white space at either end is its own trim. */
  lemma TrimNoEdgeSpace(s: string)
    requires s == [] || (!IsSpace(s[0]) && !IsSpace(s[|s| - 1]))
    ensures Trim(s) == s
  {
  }

  // ---------------------------------------------------------------------
  // String.prototype.toLowerCase, on ASCII letters

  function LowerChar(c: char): char {
    if 'A' <= c <= 'Z' then (c as int + 32) as char else c
  }

  function Lower(s: string): (r: string)
    ensures |r| == |s|
    ensures forall k :: 0 <= k < |r| ==> !('A' <= r[k] <= 'Z')
  {
    seq(|s|, k requires 0 <= k < |s| => LowerChar(s[k]))
  }

  lemma LowerIdempotent(s: string)
    ensures Lower(Lower(s)) == Lower(s)
  {
  }

  // ---------------------------------------------------------------------
  // String(n) and Number(s) on integers

  function DigitChar(d: nat): char
    requires d < 10
  {
    ('0' as int + d) as char
  }

  predicate IsDigit(c: char) {
    '0' <= c <= '9'
  }

  /** `String(n)` for a non-negative integer: its decimal digits. */
  function NatToString(n: nat): (r: string)
    ensures |r| >= 1
    ensures forall k :: 0 <= k < |r| ==> IsDigit(r[k])
    ensures n >= 10 ==> r[0] != '0'
  {
    if n < 10 then [DigitChar(n)] else NatToString(n / 10) + [DigitChar(n % 10)]
  }

  /** `String(i)` for any integer. */
  function IntToString(i: int): (r: string)
    ensures |r| >= 1
    ensures (i < 0) <==> r[0] == '-'
  {
    if i < 0 then "-" + NatToString(-i) else NatToString(i)
  }

  /** The value of a string of decimal digits. */
  function DigitsValue(s: string): nat
    requires forall k :: 0 <= k < |s| ==> IsDigit(s[k])
  {
    if s == [] then 0
    else
      assert IsDigit(s[|s| - 1]);
      DigitsValue(s[..|s| - 1]) * 10 + (s[|s| - 1] as int - '0' as int)
  }

  /** `Number(s)` on the strings this model reads as numbers: a non-empty
      run of decimal digits. None stands for NaN. */
  function ParseDecimal(s: string): (r: Option<nat>)
    ensures r.Some? <==> s != [] && forall k :: 0 <= k < |s| ==> IsDigit(s[k])
  {
    if s != [] && forall k :: 0 <= k < |s| ==> IsDigit(s[k]) then Some(DigitsValue(s)) else None
  }

  lemma {:induction false} DigitsValueOfNat(n: nat)
    ensures DigitsValue(NatToString(n)) == n
  {
    var r := NatToString(n);
    if n >= 10 {
      DigitsValueOfNat(n / 10);
      assert r[..|r| - 1] == NatToString(n / 10);
    }
  }

  /** Reading back what `String(n)` printed gives `n`. */
  lemma ParseNatToString(n: nat)
    ensures ParseDecimal(NatToString(n)) == Some(n)
  {
    DigitsValueOfNat(n);
  }

  // ---------------------------------------------------------------------
  // escapeHtml (app.js:142)

  function EscapeChar(c: char): string {
    if c == '&' then "&amp;"
    else if c == '<' then "&lt;"
    else if c == '>' then "&gt;"
    else if c == '"' then "&quot;"
    else if c == '\'' then "&#039;"
    else [c]
  }

  /** The five `replace` calls of `escapeHtml`. Replacing `&` first means no
      entity produced later is escaped again, so the chain is one
      character-by-character substitution. */
  function EscapeHtml(s: string): (r: string)
    ensures forall k :: 0 <= k < |r| ==> r[k] !in "<>\"'"
    ensures |r| >= |s|
  {
    if s == [] then [] else EscapeChar(s[0]) + EscapeHtml(s[1..])
  }

  /** How a browser reads the five entities back. */
  function UnescapeHtml(s: string): string
  {
    if s == [] then []
    else if s[0] != '&' then [s[0]] + UnescapeHtml(s[1..])
    else if |s| >= 5 && s[..5] == "&amp;" then "&" + UnescapeHtml(s[5..])
    else if |s| >= 4 && s[..4] == "&lt;" then "<" + UnescapeHtml(s[4..])
    else if |s| >= 4 && s[..4] == "&gt;" then ">" + UnescapeHtml(s[4..])
    else if |s| >= 6 && s[..6] == "&quot;" then "\"" + UnescapeHtml(s[6..])
    else if |s| >= 6 && s[..6] == "&#039;" then "'" + UnescapeHtml(s[6..])
    else [s[0]] + UnescapeHtml(s[1..])
  }

  lemma UnescapeChar(c: char, rest: string)
    ensures UnescapeHtml(EscapeChar(c) + rest) == [c] + UnescapeHtml(rest)
  {
    if c == '&' {
      UnescapeEntity("&amp;", rest);
    } else if c == '<' {
      UnescapeEntity("&lt;", rest);
    } else if c == '>' {
      UnescapeEntity("&gt;", rest);
    } else if c == '"' {
      UnescapeEntity("&quot;", rest);
    } else if c == '\'' {
      UnescapeEntity("&#039;", rest);
    } else {
      var e := [c] + rest;
      assert e[0] == c && e[1..] == rest;
    }
  }

  /** Each entity is read back as the one character it stands for. */
  lemma UnescapeEntity(x: string, rest: string)
    requires x in ["&amp;", "&lt;", "&gt;", "&quot;", "&#039;"]
    ensures UnescapeHtml(x + rest) == [EntityChar(x)] + UnescapeHtml(rest)
  {
    var e := x + rest;
    assert e[..|x|] == x && e[|x|..] == rest;
    assert e[0] == '&' && e[1] == x[1] && e[2] == x[2];
  }

  function EntityChar(x: string): char {
    if x == "&amp;" then '&' else if x == "&lt;" then '<' else if x == "&gt;" then '>'
    else if x == "&quot;" then '"' else '\''
  }

  /** Escaping loses nothing: the displayed text is the original string. */
  lemma {:induction false} EscapeHtmlRoundTrip(s: string)
    ensures UnescapeHtml(EscapeHtml(s)) == s
  {
    if s != [] {
      UnescapeChar(s[0], EscapeHtml(s[1..]));
      EscapeHtmlRoundTrip(s[1..]);
    }
  }

  // ---------------------------------------------------------------------
  // getDifficultyStars (app.js:144)

  const Star: char := '\U{2B50}'  // the star emoji

  /** Lower-casing only ASCII letters decides these three comparisons
      exactly: the only non-ASCII character JavaScript lower-cases to an
      ASCII letter is the Kelvin sign (to 'k'), which none of the words has. */
  function DifficultyStars(difficulty: string): (r: string)
    ensures forall k :: 0 <= k < |r| ==> r[k] == Star
    ensures |r| == 1 <==> Lower(difficulty) == "easy"
    ensures |r| == 2 <==> Lower(difficulty) == "medium"
    ensures |r| == 3 <==> Lower(difficulty) == "difficult"
    ensures |r| <= 3
  {
    var d := Lower(difficulty);
    if d == "easy" then [Star]
    else if d == "medium" then [Star, Star]
    else if d == "difficult" then [Star, Star, Star]
    else ""
  }

  // ---------------------------------------------------------------------
  // The countdown text of updateTimerUI (app.js:920-921)

  /** JavaScript's `%`: the remainder takes the sign of the dividend. */
  function JsRem(a: int, b: int): (r: int)
    requires b > 0
    ensures a >= 0 ==> r == a % b
    ensures a < 0 ==> -b < r <= 0
  {
    if a >= 0 || a % b == 0 then a % b else a % b - b
  }

  /** `String(x).padStart(2, '0')`. */
  function PadTwo(s: string): (r: string)
    ensures |r| >= 2 && |r| >= |s|
    ensures r[|r| - |s|..] == s
  {
    if |s| >= 2 then s else seq(2 - |s|, _ => '0') + s
  }

  /** `${Math.floor(t/60)}:${String(t%60).padStart(2,'0')}`. Dafny's `/` by a
      positive divisor is the floor, as Math.floor is. */
  function TimerText(t: int): string
  {
    IntToString(t / 60) + ":" + PadTwo(IntToString(JsRem(t, 60)))
  }

  /** Reads `m:ss` back into seconds. */
  function ParseTimer(s: string): Option<int>
  {
    if |s| >= 4 && s[|s| - 3] == ':' then
      match (ParseDecimal(s[..|s| - 3]), ParseDecimal(s[|s| - 2..]))
      case (Some(m), Some(sec)) => if sec < 60 then Some(m * 60 + sec) else None
      case _ => None
    else None
  }

  lemma PadTwoDigits(sec: nat)
    requires sec < 60
    ensures |PadTwo(NatToString(sec))| == 2
    ensures ParseDecimal(PadTwo(NatToString(sec))) == Some(sec)
  {
    if sec < 10 {
      assert PadTwo(NatToString(sec)) == ['0', DigitChar(sec)];
      TwoDigitsValue('0', DigitChar(sec));
    } else {
      ParseNatToString(sec);
      assert NatToString(sec / 10) == [DigitChar(sec / 10)];
    }
  }

  lemma TwoDigitsValue(c: char, d: char)
    requires IsDigit(c) && IsDigit(d)
    ensures ParseDecimal([c, d]) == Some((c as int - '0' as int) * 10 + (d as int - '0' as int))
  {
    assert [c, d][..1] == [c];
    assert [c][..0] == [];
    assert DigitsValue([c]) == c as int - '0' as int;
    assert DigitsValue([c, d]) == DigitsValue([c]) * 10 + (d as int - '0' as int);
  }

  /** For a non-negative time the display is `minutes:seconds`, with the
      seconds always two digits, and it denotes exactly the time left. */
  lemma TimerTextRoundTrip(t: nat)
    ensures ParseTimer(TimerText(t)) == Some(t)
  {
    TimerTextParts(t);
    TimerTextOf(t / 60, t % 60, t);
  }

  lemma TimerTextParts(t: nat)
    ensures TimerText(t) == NatToString(t / 60) + ":" + PadTwo(NatToString(t % 60))
    ensures t == t / 60 * 60 + t % 60 && t % 60 < 60
  {
    assert JsRem(t, 60) == t % 60;
  }

  lemma TimerTextOf(m: nat, sec: nat, t: nat)
    requires t == m * 60 + sec && sec < 60
    ensures ParseTimer(NatToString(m) + ":" + PadTwo(NatToString(sec))) == Some(t)
  {
    TimerPieces(m, sec);
    ParseTimerOf(NatToString(m), PadTwo(NatToString(sec)), m, sec, t);
  }

  lemma TimerPieces(m: nat, sec: nat)
    requires sec < 60
    ensures ParseDecimal(NatToString(m)) == Some(m)
    ensures |PadTwo(NatToString(sec))| == 2 && ParseDecimal(PadTwo(NatToString(sec))) == Some(sec)
  {
    PadTwoDigits(sec);
    ParseNatToString(m);
  }

  lemma ParseTimerOf(ms: string, ss: string, m: nat, sec: nat, t: nat)
    requires ParseDecimal(ms) == Some(m)
    requires |ss| == 2 && ParseDecimal(ss) == Some(sec) && sec < 60
    requires t == m * 60 + sec
    ensures ParseTimer(ms + ":" + ss) == Some(t)
  {
    var s := ms + ":" + ss;
    assert s[..|s| - 3] == ms;
    assert s[|s| - 2..] == ss;
    assert s[|s| - 3] == ':';
  }
}
