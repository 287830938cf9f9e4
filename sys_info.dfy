/**
 * The in-buffer string logic of the system-information probe: counting
 * brackets, reading the transparent-huge-page mode out of the kernel's
 * `enabled` file, extracting the hexadecimal value of an `_AC(0x...)`
 * definition, and packing a cache's level and type into one word and
 * routing it.  File access is left out: a file is given as its text, and a
 * failing DIE_ASSERT / ERROR_ASSERT becomes an error result.
 */
module SysInfo {
  import opened Machine
  import opened Results
  import opened CStrings

  datatype SysError =
    | ReadFailed            // fgets found nothing to read
    | BufTooSmall           // the line does not fit the 64-byte buffer
    | UnknownFormat         // neither 0 nor 2 brackets
    | UnbalancedBraces      // no '[' followed by a ']'
    | NoValidConfig         // the word is none of always / madvise / never
    | NoAcValue             // no "_AC(0x" followed by a ','
    | NoHexDigits           // no hexadecimal digit after the marker
    | UnknownCacheType      // a type file that is none of the three kinds
    | UnsupportedUnified    // a unified cache other than L2 or L3
    | MultiLevelData        // a data cache above level 1
    | MultiLevelInstruction // an instruction cache above level 1

  // ---------------------------------------------------------------------
  // contains_braces
  // ---------------------------------------------------------------------

  predicate IsBrace(c: char) {
    c == '[' || c == ']'
  }

  /** The number of '[' and ']' characters of s. */
  function BraceCount(s: seq<char>): (n: nat)
    ensures n <= |s|
  {
    if |s| == 0 then 0
    else BraceCount(s[..|s| - 1]) + (if IsBrace(s[|s| - 1]) then 1 else 0)
  }

  /** The count of a concatenation is the sum of the counts. */
  lemma {:induction false} BraceCountAppend(a: seq<char>, b: seq<char>)
    ensures BraceCount(a + b) == BraceCount(a) + BraceCount(b)
    decreases |b|
  {
    if |b| == 0 {
      assert a + b == a;
    } else {
      assert (a + b)[..|a + b| - 1] == a + b[..|b| - 1];
      assert (a + b)[|a + b| - 1] == b[|b| - 1];
      BraceCountAppend(a, b[..|b| - 1]);
    }
  }

  /** Counting one more character of t. */
  lemma BraceCountStep(t: seq<char>, i: nat)
    requires i < |t|
    ensures BraceCount(t[..i + 1]) == BraceCount(t[..i]) + (if IsBrace(t[i]) then 1 else 0)
  {
    assert t[..i + 1][..i] == t[..i];
  }

  /** `contains_braces`: the brackets before the terminator, counted in a uint32_t. */
  method ContainsBraces(buf: array<char>) returns (contains: u32)
    requires exists k :: 0 <= k < buf.Length && buf[k] == Nul
    ensures contains == Wrap32(BraceCount(CStr(buf[..])))
  {
    ghost var n := StrLen(buf[..]);
    contains := 0;
    var i := 0;
    while buf[i] != Nul
      invariant 0 <= i <= n < buf.Length
      invariant contains == Wrap32(BraceCount(buf[..i]))
      decreases n - i
    {
      BraceCountStep(buf[..], i);
      if buf[i] == ']' || buf[i] == '[' {
        Wrap32Add(BraceCount(buf[..i]), 1);
        contains := Wrap32(contains + 1);
      }
      i := i + 1;
    }
  }

  // ---------------------------------------------------------------------
  // compute_transparent_huge_page_config
  // ---------------------------------------------------------------------

  const BufLen: nat := 64

  datatype Thp = Always | Madvise | Never

  /** `THP::ALWAYS`, `THP::MADVISE`, `THP::NEVER`. */
  function ThpCode(t: Thp): (c: nat)
    ensures c < 3
  {
    match t
    case Always => 0
    case Madvise => 1
    case Never => 2
  }

  /** The characters fgets takes from t: up to and including a newline, at most max. */
  function LineLen(t: seq<char>, max: nat): (n: nat)
    ensures n <= max && n <= |t|
    ensures forall i :: 0 <= i < n - 1 ==> t[i] != '\n'
  {
    if |t| == 0 || max == 0 then 0
    else if t[0] == '\n' then 1
    else 1 + LineLen(t[1..], max - 1)
  }

  /** `fgets(buf, 64, fp)`: the first line of the file, newline included, at most 63 characters. */
  function FgetsLine(text: seq<char>): (line: seq<char>)
    ensures |line| < BufLen && |line| <= |text| && line == text[..|line|]
    ensures |text| > 0 <==> |line| > 0
  {
    text[..LineLen(text, BufLen - 1)]
  }

  /** The zero-initialised 64-byte buffer after fgets. */
  function FgetsBuffer(line: seq<char>): (buf: seq<char>)
    requires |line| < BufLen
    ensures |buf| == BufLen && buf[..|line|] == line
    ensures forall i :: |line| <= i < BufLen ==> buf[i] == Nul
  {
    line + seq(BufLen - |line|, _ => Nul)
  }

  /** The first index at or after k holding c, or |s|. */
  function FindFrom(s: seq<char>, c: char, k: nat): (j: nat)
    requires k <= |s|
    ensures k <= j <= |s| && (j < |s| ==> s[j] == c)
    ensures forall m :: k <= m < j ==> s[m] != c
    decreases |s| - k
  {
    if k == |s| then |s| else if s[k] == c then k else FindFrom(s, c, k + 1)
  }

  /** The three `strncmp` prefix tests, in the source's order. */
  function MatchWord(word: seq<char>): (r: Result<Thp, SysError>)
    ensures r.Ok? <==> StartsWith(word, "always") || StartsWith(word, "madvise") || StartsWith(word, "never")
    ensures r.Err? ==> r.error == NoValidConfig
  {
    if StartsWith(word, "always") then Ok(Always)
    else if StartsWith(word, "madvise") then Ok(Madvise)
    else if StartsWith(word, "never") then Ok(Never)
    else Err(NoValidConfig)
  }

  /**
   * The mode a line selects: the whole line when it has no brackets,
   * otherwise the word after the first '[' up to the next ']'.
   */
  function ParseMode(s: seq<char>): Result<Thp, SysError> {
    var braces := BraceCount(s);
    if braces != 0 && braces != 2 then Err(UnknownFormat)
    else if braces == 0 then MatchWord(s)
    else
      var open := FindFrom(s, '[', 0);
      if open == |s| then Err(UnbalancedBraces)
      else
        var close := FindFrom(s, ']', open + 1);
        if close == |s| then Err(UnbalancedBraces)
        else MatchWord(s[open + 1..close])
  }

  /** The mode the kernel's `enabled` file selects, read through a 64-byte buffer. */
  function ThpSpec(text: seq<char>): Result<Thp, SysError> {
    var line := FgetsLine(text);
    var buf := FgetsBuffer(line);
    if |line| == 0 then Err(ReadFailed)
    else if buf[BufLen - 2] != Nul then Err(BufTooSmall)
    else ParseMode(CStr(buf))
  }

  /** The mode names the kernel file uses. */
  function ThpWord(t: Thp): (w: seq<char>)
    ensures MatchWord(w) == Ok(t)
  {
    match t
    case Always => "always"
    case Madvise => assert "madvise"[0] != "always"[0]; "madvise"
    case Never => assert "never"[0] != "always"[0] && "never"[0] != "madvise"[0]; "never"
  }

  /** No bracket, terminator or newline: a plain stretch of the kernel's line. */
  predicate Plain(x: seq<char>) {
    forall i :: 0 <= i < |x| ==> x[i] != '[' && x[i] != ']' && x[i] != Nul && x[i] != '\n'
  }

  lemma {:induction false} LineLenOfLine(line: seq<char>, rest: seq<char>, max: nat)
    requires 0 < |line| <= max && line[|line| - 1] == '\n'
    requires forall i :: 0 <= i < |line| - 1 ==> line[i] != '\n'
    ensures LineLen(line + rest, max) == |line|
  {
    if |line| > 1 {
      assert (line + rest)[1..] == line[1..] + rest;
      LineLenOfLine(line[1..], rest, max - 1);
    }
  }

  lemma {:induction false} FindFromAt(s: seq<char>, c: char, k: nat, j: nat)
    requires k <= j < |s| && s[j] == c
    requires forall m :: k <= m < j ==> s[m] != c
    ensures FindFrom(s, c, k) == j
    decreases j - k
  {
    if k < j {
      FindFromAt(s, c, k + 1, j);
    }
  }

  lemma {:induction false} BraceCountPlain(x: seq<char>)
    requires Plain(x)
    ensures BraceCount(x) == 0
  {
    if |x| > 0 {
      BraceCountPlain(x[..|x| - 1]);
    }
  }

  /** A single newline-terminated line that fits the buffer is what fgets leaves there. */
  lemma ThpLine(line: seq<char>, rest: seq<char>)
    requires 0 < |line| <= BufLen - 2 && line[|line| - 1] == '\n'
    requires forall i :: 0 <= i < |line| - 1 ==> line[i] != '\n'
    requires forall i :: 0 <= i < |line| ==> line[i] != Nul
    ensures FgetsLine(line + rest) == line
    ensures FgetsBuffer(line)[BufLen - 2] == Nul && CStr(FgetsBuffer(line)) == line
  {
    LineLenOfLine(line, rest, BufLen - 1);
    StrLenAt(FgetsBuffer(line), |line|);
  }

  lemma BracketedCount(pre: seq<char>, w: seq<char>, post: seq<char>)
    requires Plain(pre) && Plain(w) && Plain(post)
    ensures BraceCount(pre + "[" + w + "]" + post + "\n") == 2
  {
    BraceCountPlain(pre);
    BraceCountPlain(w);
    BraceCountPlain(post);
    assert BraceCount("[") == 1 && BraceCount("]") == 1 && BraceCount("\n") == 0;
    var a := pre + "[";
    BraceCountAppend(pre, "[");
    var b := a + w;
    BraceCountAppend(a, w);
    var c := b + "]";
    BraceCountAppend(b, "]");
    var d := c + post;
    BraceCountAppend(c, post);
    BraceCountAppend(d, "\n");
  }

  /** With a '[' at o, none before, w after it and then a ']', the parser finds exactly w. */
  lemma BracketPositions(line: seq<char>, o: nat, w: seq<char>)
    requires o + 1 + |w| < |line| && line[o] == '[' && line[o + 1 + |w|] == ']'
    requires forall m :: 0 <= m < o ==> line[m] != '['
    requires line[o + 1..o + 1 + |w|] == w && Plain(w)
    ensures FindFrom(line, '[', 0) == o
    ensures FindFrom(line, ']', o + 1) == o + 1 + |w|
  {
    assert forall m :: o + 1 <= m < o + 1 + |w| ==> line[m] == w[m - o - 1];
    FindFromAt(line, '[', 0, o);
    FindFromAt(line, ']', o + 1, o + 1 + |w|);
  }

  /**
   * The kernel's bracketed format: a line `pre[w]post` followed by a newline
   * (and anything after it) selects the mode the word w names.
   */
  lemma ThpBracketed(pre: seq<char>, w: seq<char>, post: seq<char>, line: seq<char>, rest: seq<char>)
    requires Plain(pre) && Plain(w) && Plain(post)
    requires line == pre + "[" + w + "]" + post + "\n" && |line| <= BufLen - 2
    ensures ThpSpec(line + rest) == MatchWord(w)
  {
    BracketedLine(pre, w, post, line);
    BracketedCount(pre, w, post);
    BracketPositions(line, |pre|, w);
    ThpBracketedLine(line, rest, |pre|, |pre| + 1 + |w|, w);
  }

  lemma ThpBracketedLine(line: seq<char>, rest: seq<char>, o: nat, c: nat, w: seq<char>)
    requires 0 < |line| <= BufLen - 2 && line[|line| - 1] == '\n'
    requires forall i :: 0 <= i < |line| - 1 ==> line[i] != '\n' && line[i] != Nul
    requires BraceCount(line) == 2 && o < c < |line|
    requires FindFrom(line, '[', 0) == o && FindFrom(line, ']', o + 1) == c
    requires line[o + 1..c] == w
    ensures ThpSpec(line + rest) == MatchWord(w)
  {
    ThpOfLine(line, rest);
    ParseBracketed(line, o, c);
  }

  /** A line the buffer holds whole is what the parser reads. */
  lemma ThpOfLine(line: seq<char>, rest: seq<char>)
    requires 0 < |line| <= BufLen - 2 && line[|line| - 1] == '\n'
    requires forall i :: 0 <= i < |line| - 1 ==> line[i] != '\n'
    requires forall i :: 0 <= i < |line| ==> line[i] != Nul
    ensures ThpSpec(line + rest) == ParseMode(line)
  {
    ThpLine(line, rest);
  }

  /** Two braces, with the first '[' at o and the next ']' at c: the word between them decides. */
  lemma ParseBracketed(line: seq<char>, o: nat, c: nat)
    requires BraceCount(line) == 2 && o < c < |line|
    requires FindFrom(line, '[', 0) == o && FindFrom(line, ']', o + 1) == c
    ensures ParseMode(line) == MatchWord(line[o + 1..c])
  {
  }

  /** Where the brackets, the word and the newline sit in a line `pre[w]post`. */
  lemma BracketedLine(pre: seq<char>, w: seq<char>, post: seq<char>, line: seq<char>)
    requires Plain(pre) && Plain(w) && Plain(post)
    requires line == pre + "[" + w + "]" + post + "\n"
    ensures |line| == |pre| + |w| + |post| + 3 && line[|line| - 1] == '\n'
    ensures forall i :: 0 <= i < |line| - 1 ==> line[i] != '\n' && line[i] != Nul
    ensures line[|pre|] == '[' && line[|pre| + 1 + |w|] == ']'
    ensures forall m :: 0 <= m < |pre| ==> line[m] != '['
    ensures line[|pre| + 1..|pre| + 1 + |w|] == w
  {
    var o := |pre|;
    var c := o + 1 + |w|;
    forall i | 0 <= i < |line| - 1 ensures line[i] != '\n' && line[i] != Nul {
      if i < o {
        assert line[i] == pre[i];
      } else if i == o || i == c {
      } else if i < c {
        assert line[i] == w[i - o - 1];
      } else {
        assert line[i] == post[i - c - 1];
      }
    }
    assert forall m :: 0 <= m < o ==> line[m] == pre[m];
    assert line[o + 1..c] == w;
  }

  /** The unbracketed format: a line that starts with a mode name selects it. */
  lemma ThpPlain(w: seq<char>, rest: seq<char>)
    requires Plain(w) && |w| + 1 <= BufLen - 2
    ensures ThpSpec(w + "\n" + rest) == MatchWord(w + "\n")
  {
    var line := w + "\n";
    ThpLine(line, rest);
    BraceCountPlain(w);
    BraceCountAppend(w, "\n");
  }

  /** Whichever mode is bracketed, the parser returns it: `always [madvise] never` is Madvise. */
  lemma ThpSelectsBracketed(pre: seq<char>, t: Thp, post: seq<char>, rest: seq<char>)
    requires Plain(pre) && Plain(post)
    requires |pre| + |ThpWord(t)| + |post| + 3 <= BufLen - 2
    ensures ThpSpec(pre + "[" + ThpWord(t) + "]" + post + "\n" + rest) == Ok(t)
  {
    ThpBracketed(pre, ThpWord(t), post, pre + "[" + ThpWord(t) + "]" + post + "\n", rest);
  }

  /** Cutting the buffer at close leaves the word between open and close. */
  lemma CutWord(buf: seq<char>, open: nat, close: nat)
    requires open <= close < StrLen(buf)
    ensures CStr(buf[close := Nul][open..]) == CStr(buf)[open..close]
  {
    var b := buf[close := Nul][open..];
    StrLenAt(b, close - open);
  }

  /** A suffix of the buffer from inside its string holds the rest of the string. */
  lemma CStrSuffix(buf: seq<char>, k: nat)
    requires k <= StrLen(buf)
    ensures CStr(buf[k..]) == CStr(buf)[k..]
  {
    var n := StrLen(buf);
    if n < |buf| {
      StrLenAt(buf[k..], n - k);
    } else {
      StrLenNoNul(buf[k..]);
    }
  }

  /** The first bracket loop: stop just past the first '[', counting it off. */
  method OpenLoop(buf: array<char>, braces: u32) returns (i: nat, parseStart: nat, parseBraces: u32)
    requires buf.Length == BufLen && StrLen(buf[..]) < BufLen && braces == 2
    ensures var s := CStr(buf[..]);
            var open := FindFrom(s, '[', 0);
            && i <= |s|
            && (parseStart == 0 <==> open == |s|)
            && (open < |s| ==> i == open + 1 && parseStart == i && parseBraces == 1)
            && (open == |s| ==> i == |s| && parseBraces == 2)
  {
    ghost var s := CStr(buf[..]);
    ghost var open := FindFrom(s, '[', 0);
    parseStart := 0;
    parseBraces := braces;
    i := 0;
    while i < BufLen && buf[i] != Nul
      invariant 0 <= i <= |s| && i <= open
      invariant parseBraces == 2 && parseStart == 0
      decreases |s| - i
    {
      if buf[i] == '[' {
        i := i + 1;
        parseStart := i;
        parseBraces := parseBraces - 1;
        break;
      }
      i := i + 1;
    }
  }

  /** The second bracket loop: overwrite the next ']' with a NUL, counting it off. */
  method CloseLoop(buf: array<char>, i0: nat, braces: u32) returns (parseBraces: u32)
    requires buf.Length == BufLen && StrLen(buf[..]) < BufLen
    requires i0 <= StrLen(buf[..]) && (braces == 1 || (braces == 2 && i0 == StrLen(buf[..])))
    modifies buf
    ensures var s := CStr(old(buf[..]));
            var close := FindFrom(s, ']', i0);
            && (parseBraces == braces - 1 <==> close < |s|)
            && (close < |s| ==> buf[..] == old(buf[..])[close := Nul])
            && (close == |s| ==> parseBraces == braces && buf[..] == old(buf[..]))
  {
    ghost var buf0 := buf[..];
    ghost var s := CStr(buf0);
    ghost var close := FindFrom(s, ']', i0);
    parseBraces := braces;
    var i := i0;
    while i < BufLen && buf[i] != Nul
      invariant i0 <= i <= |s| && i <= close
      invariant buf[..] == buf0 && parseBraces == braces
      decreases |s| - i
    {
      if buf[i] == ']' {
        buf[i] := Nul;
        parseBraces := parseBraces - 1;
        break;
      }
      i := i + 1;
    }
  }

  /**
   * The two bracket loops of `compute_transparent_huge_page_config`: find
   * the first '[' and then the next ']', which is overwritten by a NUL.  The
   * count left over is 0 exactly when both were found, and then the string
   * at parseStart is the word between them.
   */
  method CutBracketed(buf: array<char>) returns (parseStart: nat, parseBraces: u32)
    requires buf.Length == BufLen && StrLen(buf[..]) < BufLen
    modifies buf
    ensures parseStart <= buf.Length
    ensures var s := CStr(old(buf[..]));
            var open := FindFrom(s, '[', 0);
            var close := if open < |s| then FindFrom(s, ']', open + 1) else |s|;
            (parseBraces == 0 <==> close < |s|) &&
            (parseBraces == 0 ==> parseStart == open + 1 && CStr(buf[parseStart..]) == s[open + 1..close])
  {
    ghost var buf0 := buf[..];
    ghost var s := CStr(buf0);
    ghost var open := FindFrom(s, '[', 0);
    var i;
    i, parseStart, parseBraces := OpenLoop(buf, 2);
    parseBraces := CloseLoop(buf, i, parseBraces);
    if parseBraces == 0 {
      ghost var close := FindFrom(s, ']', open + 1);
      CutWord(buf0, parseStart, close);
    }
  }

  /** `compute_transparent_huge_page_config` on the text of the `enabled` file. */
  method ComputeThpConfig(text: seq<char>) returns (r: Result<Thp, SysError>)
    ensures r == ThpSpec(text)
  {
    var line := FgetsLine(text);
    if |line| == 0 {
      return Err(ReadFailed);
    }
    var buf := FillBuffer(line);
    if buf[BufLen - 2] != Nul {
      return Err(BufTooSmall);
    }
    StrLenInBuffer(buf[..]);
    r := ParseBuffer(buf);
  }

  /** The zero-initialised buffer with the line fgets copies into it. */
  method FillBuffer(line: seq<char>) returns (buf: array<char>)
    requires |line| < BufLen
    ensures fresh(buf) && buf[..] == FgetsBuffer(line)
  {
    buf := new char[BufLen](_ => Nul);
    forall i | 0 <= i < |line| {
      buf[i] := line[i];
    }
    assert buf[..] == FgetsBuffer(line);
  }

  /** A NUL at the buffer's next-to-last place ends its string before the end. */
  lemma StrLenInBuffer(buf: seq<char>)
    requires |buf| == BufLen && buf[BufLen - 2] == Nul
    ensures StrLen(buf) < BufLen
  {
  }

  /** The part of `compute_transparent_huge_page_config` that parses the buffer. */
  method ParseBuffer(buf: array<char>) returns (r: Result<Thp, SysError>)
    requires buf.Length == BufLen && StrLen(buf[..]) < BufLen
    modifies buf
    ensures r == ParseMode(CStr(old(buf[..])))
  {
    ghost var s := CStr(buf[..]);
    var parseBraces := ContainsBraces(buf);
    assert parseBraces == BraceCount(s);
    if parseBraces != 2 && parseBraces != 0 {
      return Err(UnknownFormat);
    }
    var parseStart := 0;
    if parseBraces != 0 {
      parseStart, parseBraces := CutBracketed(buf);
      if parseBraces != 0 {
        return Err(UnbalancedBraces);
      }
    } else {
      CStrSuffix(buf[..], 0);
    }
    r := MatchWord(CStr(buf[parseStart..]));
  }

  // ---------------------------------------------------------------------
  // get_ac_value
  // ---------------------------------------------------------------------

  predicate IsHexDigit(c: char) {
    ('0' <= c <= '9') || ('a' <= c <= 'f') || ('A' <= c <= 'F')
  }

  function HexDigitValue(c: char): (d: nat)
    requires IsHexDigit(c)
    ensures d < 16
  {
    if '0' <= c <= '9' then c as int - '0' as int
    else if 'a' <= c <= 'f' then c as int - 'a' as int + 10
    else c as int - 'A' as int + 10
  }

  /** The lower-case digit of d. */
  function HexChar(d: nat): (c: char)
    requires d < 16
    ensures IsHexDigit(c) && HexDigitValue(c) == d
  {
    if d < 10 then (d + '0' as int) as char else (d - 10 + 'a' as int) as char
  }

  /** The number a run of hexadecimal digits spells, most significant first. */
  function HexValue(h: seq<char>): nat
    requires forall i :: 0 <= i < |h| ==> IsHexDigit(h[i])
  {
    if |h| == 0 then 0 else HexValue(h[..|h| - 1]) * 16 + HexDigitValue(h[|h| - 1])
  }

  /** The shortest lower-case hexadecimal spelling of v. */
  function ToHex(v: nat): (h: seq<char>)
    ensures |h| > 0 && forall i :: 0 <= i < |h| ==> IsHexDigit(h[i])
    decreases v
  {
    if v < 16 then [HexChar(v)] else ToHex(v / 16) + [HexChar(v % 16)]
  }

  /** Reading back a spelled value gives the value. */
  lemma {:induction false} HexValueToHex(v: nat)
    ensures HexValue(ToHex(v)) == v
    decreases v
  {
    var h := ToHex(v);
    if v >= 16 {
      assert h[..|h| - 1] == ToHex(v / 16);
      HexValueToHex(v / 16);
    }
  }

  /** `isspace` in the C locale. */
  predicate IsSpace(c: char) {
    c == ' ' || (9 <= c as int <= 13)
  }

  /** The first index at or after k whose character is not white space. */
  function SkipSpaces(t: seq<char>, k: nat): (j: nat)
    requires k <= |t|
    ensures k <= j <= |t| && (j < |t| ==> !IsSpace(t[j]))
    ensures forall m :: k <= m < j ==> IsSpace(t[m])
    decreases |t| - k
  {
    if k == |t| || !IsSpace(t[k]) then k else SkipSpaces(t, k + 1)
  }

  /** The first index at or after k whose character is not a hexadecimal digit. */
  function HexRunEnd(t: seq<char>, k: nat): (j: nat)
    requires k <= |t|
    ensures k <= j <= |t| && (j < |t| ==> !IsHexDigit(t[j]))
    ensures forall m :: k <= m < j ==> IsHexDigit(t[m])
    decreases |t| - k
  {
    if k == |t| || !IsHexDigit(t[k]) then k else HexRunEnd(t, k + 1)
  }

  /**
   * `strtoull(t, &end, 16)` on the C string t: leading white space, an
   * optional sign, an optional `0x` / `0X` before a digit, then the longest
   * run of digits.  None when no digit is read (end is left at t); a value
   * above 2^64 - 1 saturates, and a minus sign negates modulo 2^64.
   */
  function Strtoull(t: seq<char>): (r: Option<u64>)
    ensures r.None? <==> HexRunEnd(t, StrtoullDigits(t)) == StrtoullDigits(t)
  {
    var d := StrtoullDigits(t);
    var e := HexRunEnd(t, d);
    if e == d then None
    else
      var v := HexValue(t[d..e]);
      var j0 := SkipSpaces(t, 0);
      if v >= Two64 then Some(Two64 - 1)
      else if j0 < |t| && t[j0] == '-' then Some(Wrap64(Two64 - v))
      else Some(v)
  }

  /** Where `strtoull`'s digits start: after white space, sign and a `0x` that a digit follows. */
  function StrtoullDigits(t: seq<char>): (d: nat)
    ensures d <= |t|
  {
    var j0 := SkipSpaces(t, 0);
    var j := if j0 < |t| && (t[j0] == '+' || t[j0] == '-') then j0 + 1 else j0;
    if j + 2 < |t| && t[j] == '0' && (t[j + 1] == 'x' || t[j + 1] == 'X') && IsHexDigit(t[j + 2])
    then j + 2 else j
  }

  /** A bare run of digits converts to its value, saturated at 2^64 - 1. */
  lemma StrtoullOfDigits(h: seq<char>)
    requires |h| > 0 && forall i :: 0 <= i < |h| ==> IsHexDigit(h[i])
    ensures Strtoull(h) == Some(if HexValue(h) >= Two64 then Two64 - 1 else HexValue(h))
  {
    assert SkipSpaces(h, 0) == 0;
    assert StrtoullDigits(h) == 0;
    assert HexRunEnd(h, 0) == |h|;
    assert h[0..|h|] == h;
  }

  const Marker: seq<char> := "_AC(0x"

  /** `strncmp(s + i, "_AC(0x", 6) == 0`: the six characters of the marker start at i. */
  predicate MarkerAt(s: seq<char>, i: nat) {
    i + 6 <= |s| && s[i] == '_' && s[i + 1] == 'A' && s[i + 2] == 'C' && s[i + 3] == '(' && s[i + 4] == '0' && s[i + 5] == 'x'
  }

  /** The first marker at or after k, or |s|. */
  function FindMarker(s: seq<char>, k: nat): (j: nat)
    requires k <= |s|
    ensures k <= j <= |s| && (j < |s| ==> MarkerAt(s, j))
    ensures forall m :: k <= m < j ==> !MarkerAt(s, m)
    decreases |s| - k
  {
    if k == |s| || MarkerAt(s, k) then k else FindMarker(s, k + 1)
  }

  /** The last marker before i. */
  function LastMarkerBelow(s: seq<char>, i: nat): (r: Option<nat>)
    requires i <= |s|
    ensures r.Some? ==> r.value < i && MarkerAt(s, r.value)
    ensures r.Some? ==> forall m :: r.value < m < i ==> !MarkerAt(s, m)
    ensures r.None? ==> forall m :: 0 <= m < i ==> !MarkerAt(s, m)
  {
    if i == 0 then None
    else if MarkerAt(s, i - 1) then Some(i - 1)
    else LastMarkerBelow(s, i - 1)
  }

  /** A ',' after position f of s. */
  predicate CommaAfter(s: seq<char>, f: nat) {
    CommaBetween(s, f, |s|)
  }

  /** buf with every ',' at a position strictly between f and i overwritten by a NUL. */
  function CutCommas(buf: seq<char>, f: nat, i: nat): (r: seq<char>)
    ensures |r| == |buf|
    ensures forall k :: 0 <= k < |buf| ==> r[k] == (if f < k < i && buf[k] == ',' then Nul else buf[k])
  {
    seq(|buf|, k requires 0 <= k < |buf| => if f < k < i && buf[k] == ',' then Nul else buf[k])
  }

  /** The buffer after `get_ac_value`: every ',' after the first marker is overwritten by a NUL. */
  function AcBuffer(buf: seq<char>): (r: seq<char>)
    ensures |r| == |buf|
  {
    var s := CStr(buf);
    CutCommas(buf, FindMarker(s, 0), |s|)
  }

  /** A ',' strictly between f and i. */
  predicate CommaBetween(s: seq<char>, f: nat, i: nat) {
    exists k :: f < k < i && k < |s| && s[k] == ','
  }

  /**
   * The value of an `_AC(0x...)` line: the hexadecimal number after the
   * last marker, provided some marker is followed by a ','; the digits are
   * read from the buffer with its commas cut.
   */
  function AcValue(buf: seq<char>): (r: Result<u64, SysError>)
    ensures r.Err? && r.error == NoAcValue <==>
              FindMarker(CStr(buf), 0) == |CStr(buf)| || !CommaAfter(CStr(buf), FindMarker(CStr(buf), 0))
  {
    var s := CStr(buf);
    var f := FindMarker(s, 0);
    if f == |s| || !CommaAfter(s, f) then Err(NoAcValue)
    else
      var start := HexStart(s, |s|);
      match Strtoull(CStr(AcBuffer(buf)[start..]))
      case None => Err(NoHexDigits)
      case Some(v) => Ok(v)
  }

  /** Inside the string, a marker in the buffer is a marker of the string. */
  lemma MarkerInBuffer(buf: seq<char>, i: nat)
    requires i < StrLen(buf) < |buf|
    ensures MarkerAt(buf, i) <==> MarkerAt(CStr(buf), i)
  {
    var n := StrLen(buf);
    if i + 6 <= n {
      MarkerInPrefix(buf, n, i);
    } else {
      MarkerCutByNul(buf, n, i);
    }
  }

  /** A marker that ends within the first n characters is one of the prefix. */
  lemma MarkerInPrefix(t: seq<char>, n: nat, i: nat)
    requires i + 6 <= n <= |t|
    ensures MarkerAt(t, i) <==> MarkerAt(t[..n], i)
  {
  }

  /** A NUL within six characters of i leaves no marker at i. */
  lemma MarkerCutByNul(t: seq<char>, n: nat, i: nat)
    requires i < n < |t| && n < i + 6 && t[n] == Nul
    ensures !MarkerAt(t, i) && !MarkerAt(t[..n], i)
  {
    var d := n - i;
    assert 1 <= d <= 5 && t[i + d] == Nul;
  }

  /** Where the digits start once the scan has passed i: just after the last marker, or 0. */
  function HexStart(s: seq<char>, i: nat): nat
    requires i <= |s|
  {
    match LastMarkerBelow(s, i)
    case None => 0
    case Some(p) => p + |Marker|
  }

  /** One step of the scan, on the specification side. */
  lemma ScanStep(buf0: seq<char>, i: nat)
    requires i < StrLen(buf0) < |buf0|
    ensures var s := CStr(buf0);
            var f := FindMarker(s, 0);
            var cur := CutCommas(buf0, f, i);
            && cur[i] == s[i]
            && (MarkerAt(cur, i) <==> MarkerAt(s, i))
            && HexStart(s, i + 1) == (if MarkerAt(s, i) then i + |Marker| else HexStart(s, i))
            && (HexStart(s, i) != 0 <==> f < i)
            && (CommaBetween(s, f, i + 1) <==> CommaBetween(s, f, i) || (f < i && s[i] == ','))
            && (CutCommas(buf0, f, i + 1) == if f < i && s[i] == ',' then cur[i := Nul] else cur)
  {
    var s := CStr(buf0);
    var f := FindMarker(s, 0);
    CutMarker(buf0, f, i);
    HexStartStep(s, i);
    CommaStep(s, f, i);
    assert s[i] == buf0[i];
    CutStep(buf0, f, i);
  }

  lemma CutMarker(buf0: seq<char>, f: nat, i: nat)
    requires i < StrLen(buf0) < |buf0|
    ensures var cur := CutCommas(buf0, f, i);
            && cur[i] == CStr(buf0)[i]
            && (MarkerAt(cur, i) <==> MarkerAt(CStr(buf0), i))
  {
    MarkerInBuffer(buf0, i);
  }

  lemma HexStartStep(s: seq<char>, i: nat)
    requires i < |s|
    ensures HexStart(s, i + 1) == (if MarkerAt(s, i) then i + |Marker| else HexStart(s, i))
    ensures HexStart(s, i) != 0 <==> FindMarker(s, 0) < i
  {
  }

  lemma CommaStep(s: seq<char>, f: nat, i: nat)
    requires i < |s|
    ensures CommaBetween(s, f, i + 1) <==> CommaBetween(s, f, i) || (f < i && s[i] == ',')
  {
    if CommaBetween(s, f, i + 1) && !CommaBetween(s, f, i) {
      var k :| f < k < i + 1 && k < |s| && s[k] == ',';
      assert k == i;
    }
  }

  lemma CutStep(buf: seq<char>, f: nat, i: nat)
    requires i < |buf|
    ensures CutCommas(buf, f, i + 1) ==
              if f < i && buf[i] == ',' then CutCommas(buf, f, i)[i := Nul] else CutCommas(buf, f, i)
  {
    var next := CutCommas(buf, f, i + 1);
    var cur := CutCommas(buf, f, i);
    if f < i && buf[i] == ',' {
      forall k | 0 <= k < |buf| ensures next[k] == cur[i := Nul][k] {
      }
      assert next == cur[i := Nul];
    } else {
      forall k | 0 <= k < |buf| ensures next[k] == cur[k] {
      }
      assert next == cur;
    }
  }

  /** The state of the scan after the characters before i. */
  ghost predicate ScanState(buf0: seq<char>, cur: seq<char>, i: nat, start: nat, end: nat) {
    var s := CStr(buf0);
    var f := FindMarker(s, 0);
    && i <= |s| < |buf0|
    && cur == CutCommas(buf0, f, i)
    && start == HexStart(s, i)
    && (end != 0 <==> CommaBetween(s, f, i))
  }

  /** One pass of the scan's body keeps the state. */
  lemma ScanStateStep(buf0: seq<char>, cur: seq<char>, i: nat, start: nat, end: nat,
                      cur': seq<char>, start': nat, end': nat)
    requires ScanState(buf0, cur, i, start, end) && i < StrLen(buf0)
    requires MarkerAt(cur, i) ==> cur' == cur && start' == i + |Marker| && end' == end
    requires !MarkerAt(cur, i) && start != 0 && cur[i] == ',' ==>
               cur' == cur[i := Nul] && start' == start && end' == i
    requires !MarkerAt(cur, i) && !(start != 0 && cur[i] == ',') ==>
               cur' == cur && start' == start && end' == end
    ensures ScanState(buf0, cur', i + 1, start', end')
  {
    ScanStep(buf0, i);
  }

  /** At a position the scan has reached, the current buffer holds the original character. */
  lemma ScanReads(buf0: seq<char>, cur: seq<char>, i: nat, start: nat, end: nat)
    requires ScanState(buf0, cur, i, start, end)
    ensures i < |cur| && cur[i] == buf0[i]
    ensures cur[i] == Nul <==> i == StrLen(buf0)
  {
  }

  /** The scan stops at the string's terminator, with the state `get_ac_value` promises. */
  lemma ScanDone(buf0: seq<char>, cur: seq<char>, i: nat, start: nat, end: nat)
    requires ScanState(buf0, cur, i, start, end) && i == StrLen(buf0)
    ensures var s := CStr(buf0);
            && cur == AcBuffer(buf0)
            && start == HexStart(s, |s|)
            && (end != 0 <==> CommaAfter(s, FindMarker(s, 0)))
  {
  }

  /**
   * The scanning loop of `get_ac_value`: start_hex_val ends just past the
   * last marker, end_hex_val is non-zero exactly when a ',' follows the
   * first marker, and every such ',' has become a NUL.
   */
  method ScanAc(buf: array<char>) returns (startHexVal: nat, endHexVal: nat)
    requires exists k :: 0 <= k < buf.Length && buf[k] == Nul
    modifies buf
    ensures buf[..] == AcBuffer(old(buf[..]))
    ensures var s := CStr(old(buf[..])); startHexVal == HexStart(s, |s|)
    ensures var s := CStr(old(buf[..])); (endHexVal != 0) <==> CommaAfter(s, FindMarker(s, 0))
  {
    ghost var buf0 := buf[..];
    startHexVal := 0;
    endHexVal := 0;
    var i := 0;
    assert buf0 == CutCommas(buf0, FindMarker(CStr(buf0), 0), 0);
    ScanReads(buf0, buf[..], i, startHexVal, endHexVal);
    while buf[i] != Nul
      invariant buf.Length == |buf0|
      invariant ScanState(buf0, buf[..], i, startHexVal, endHexVal)
      invariant i < buf.Length
      decreases |buf0| - i
    {
      ScanReads(buf0, buf[..], i, startHexVal, endHexVal);
      startHexVal, endHexVal := ScanChar(buf, buf0, i, startHexVal, endHexVal);
      i := i + 1;
      ScanReads(buf0, buf[..], i, startHexVal, endHexVal);
    }
    ScanReads(buf0, buf[..], i, startHexVal, endHexVal);
    ScanDone(buf0, buf[..], i, startHexVal, endHexVal);
  }

  /** One pass of the scanning loop's body, at a character of the string. */
  method ScanChar(buf: array<char>, ghost buf0: seq<char>, i: nat, start: nat, end: nat)
    returns (start': nat, end': nat)
    requires ScanState(buf0, buf[..], i, start, end) && i < StrLen(buf0)
    modifies buf
    ensures ScanState(buf0, buf[..], i + 1, start', end')
  {
    ghost var cur := buf[..];
    start', end' := start, end;
    if MarkerAt(buf[..], i) {
      start' := i + |Marker|;
    } else if start != 0 && buf[i] == ',' {
      end' := i;
      buf[i] := Nul;
      assert buf[..] == cur[i := Nul];
    }
    ScanStateStep(buf0, cur, i, start, end, buf[..], start', end');
  }

  /** `get_ac_value` on a NUL-terminated buffer. */
  method GetAcValue(buf: array<char>) returns (r: Result<u64, SysError>)
    requires exists k :: 0 <= k < buf.Length && buf[k] == Nul
    modifies buf
    ensures buf[..] == AcBuffer(old(buf[..]))
    ensures r == AcValue(old(buf[..]))
  {
    ghost var buf0 := buf[..];
    var startHexVal, endHexVal := ScanAc(buf);
    if startHexVal == 0 || endHexVal == 0 {
      return Err(NoAcValue);
    }
    var v := Strtoull(CStr(buf[startHexVal..]));
    if v.None? {
      return Err(NoHexDigits);
    }
    return Ok(v.value);
  }

  /** Text that cannot start a marker and does not end the string. */
  predicate Unmarked(x: seq<char>) {
    forall i :: 0 <= i < |x| ==> x[i] != '_' && x[i] != Nul
  }

  /** With no '_' after p, the marker at p is the last one. */
  lemma LastMarkerIs(s: seq<char>, p: nat)
    requires MarkerAt(s, p)
    requires forall m :: p < m < |s| ==> s[m] != '_'
    ensures HexStart(s, |s|) == p + |Marker| && FindMarker(s, 0) <= p
  {
  }

  /** A marker at |pre| with no '_' in pre is the first one. */
  lemma {:induction false} FirstMarkerIs(s: seq<char>, k: nat, p: nat)
    requires k <= p && MarkerAt(s, p)
    requires forall m :: k <= m < p ==> s[m] != '_'
    ensures FindMarker(s, k) == p
    decreases p - k
  {
    if k < p {
      FirstMarkerIs(s, k + 1, p);
    }
  }

  /** The string and the cut buffer of a line `pre _AC(0x h , post`. */
  lemma AcLineShape(pre: seq<char>, h: seq<char>, post: seq<char>, tail: seq<char>)
    requires Unmarked(pre) && Unmarked(post) && |h| > 0
    requires forall i :: 0 <= i < |h| ==> IsHexDigit(h[i])
    ensures var line := pre + Marker + h + "," + post;
            var buf := line + [Nul] + tail;
            && CStr(buf) == line
            && FindMarker(line, 0) == |pre|
            && HexStart(line, |line|) == |pre| + |Marker|
            && CommaAfter(line, |pre|)
  {
    var line := pre + Marker + h + "," + post;
    var buf := line + [Nul] + tail;
    var o := |pre|;
    assert forall m :: 0 <= m < |line| ==>
      line[m] == if m < o then pre[m] else if m < o + 6 then Marker[m - o]
                 else if m < o + 6 + |h| then h[m - o - 6]
                 else if m == o + 6 + |h| then ',' else post[m - o - 7 - |h|];
    StrLenAt(buf, |line|);
    assert MarkerAt(line, o);
    FirstMarkerIs(line, 0, o);
    LastMarkerIs(line, o);
    assert line[o + 6 + |h|] == ',';
  }

  /** After the cut, the string at the digits' start is exactly the digits. */
  lemma AcDigits(pre: seq<char>, h: seq<char>, post: seq<char>, tail: seq<char>)
    requires Unmarked(pre) && Unmarked(post) && |h| > 0
    requires forall i :: 0 <= i < |h| ==> IsHexDigit(h[i])
    ensures var buf := pre + Marker + h + "," + post + [Nul] + tail;
            CStr(AcBuffer(buf)[|pre| + |Marker|..]) == h
  {
    var line := pre + Marker + h + "," + post;
    var buf := line + [Nul] + tail;
    assert buf == pre + Marker + h + "," + post + [Nul] + tail;
    AcLineShape(pre, h, post, tail);
    var start := |pre| + |Marker|;
    var cut := AcBuffer(buf);
    assert cut == CutCommas(buf, |pre|, |line|);
    var t := cut[start..];
    assert forall k :: 0 <= k < |h| ==> buf[start + k] == h[k];
    assert forall k :: 0 <= k < |h| ==> t[k] == h[k];
    assert buf[start + |h|] == ',';
    assert t[|h|] == Nul;
    StrLenAt(t, |h|);
    assert t[..|h|] == h;
  }

  /**
   * The line shape `get_ac_value` is written for: `pre _AC(0x<hex>, post`
   * reads back the value spelled in hexadecimal, for every 64-bit value.
   */
  lemma AcValueRoundTrip(pre: seq<char>, v: u64, post: seq<char>, tail: seq<char>)
    requires Unmarked(pre) && Unmarked(post)
    ensures AcValue(pre + Marker + ToHex(v) + "," + post + [Nul] + tail) == Ok(v)
  {
    var h := ToHex(v);
    AcLineShape(pre, h, post, tail);
    AcDigits(pre, h, post, tail);
    StrtoullOfDigits(h);
    HexValueToHex(v);
  }


  // ---------------------------------------------------------------------
  // read_cache_dir / read_cache_info
  // ---------------------------------------------------------------------

  datatype CacheType = Unified | Data | Instruction

  /** `UCACHE`, `DCACHE`, `ICACHE`. */
  function TypeCode(t: CacheType): (c: bv32)
    ensures 1 <= c <= 3
  {
    match t
    case Unified => 1
    case Data => 2
    case Instruction => 3
  }

  /**
   * The `type` file: the first line read into the 64-byte buffer, then the
   * three `strncmp` prefix tests in the source's order.
   */
  function CacheTypeOf(text: seq<char>): (r: Result<CacheType, SysError>)
    ensures r.Err? ==> r.error == ReadFailed || r.error == UnknownCacheType
  {
    var line := FgetsLine(text);
    var s := CStr(FgetsBuffer(line));
    if |line| == 0 then Err(ReadFailed)
    else if StartsWith(s, "Unified") then Ok(Unified)
    else if StartsWith(s, "Data") then Ok(Data)
    else if StartsWith(s, "Instruction") then Ok(Instruction)
    else Err(UnknownCacheType)
  }

  /** `level | (type << 16)`, the word `read_cache_dir` returns. */
  function Pack(level: bv32, code: bv32): bv32 {
    level | (code << 16)
  }

  /** `ret & 0xffff` and `ret >> 16`, as `read_cache_info` splits the word. */
  function LevelOf(ret: bv32): bv32 {
    ret & 0xffff
  }

  function TypeOf(ret: bv32): bv32 {
    ret >> 16
  }

  /** A level below 2^16 and a type code below 2^16 come back out of the word unchanged. */
  lemma PackRoundTrip(level: bv32, code: bv32)
    requires level < 0x1_0000 && code < 0x1_0000
    ensures LevelOf(Pack(level, code)) == level && TypeOf(Pack(level, code)) == code
  {
  }

  /** A level of 2^16 or more spills into the type half of the word. */
  lemma PackSpill(level: bv32, code: bv32)
    requires level >= 0x1_0000 && code < 0x1_0000
    ensures LevelOf(Pack(level, code)) == level & 0xffff
    ensures TypeOf(Pack(level, code)) == code | (level >> 16) && level >> 16 != 0
  {
  }

  datatype CacheInfo = CacheInfo(sets: u32, size: u32, assos: u32)

  /**
   * The values read from one `index<N>` directory: level, number of sets,
   * size in KiB and ways as `strtol` parsed them, and the text of the
   * `type` file.
   */
  datatype CacheDir = CacheDir(level: bv32, sets: u32, sizeKiB: nat, typeText: seq<char>, assos: u32)

  /** `read_cache_dir`: the packed word and the filled `cache_info_t`; size is `* 1024` in a uint32_t. */
  function ReadCacheDir(d: CacheDir): (r: Result<(bv32, CacheInfo), SysError>)
    ensures r.Err? <==> CacheTypeOf(d.typeText).Err?
    ensures r.Ok? ==> r.value.0 == Pack(d.level, TypeCode(CacheTypeOf(d.typeText).value))
  {
    match CacheTypeOf(d.typeText)
    case Err(e) => Err(e)
    case Ok(t) => Ok((Pack(d.level, TypeCode(t)), CacheInfo(d.sets, Wrap32(d.sizeKiB * 1024), d.assos)))
  }

  datatype Target = L1d | L1i | L2 | L3

  /** The dispatch of `read_cache_info` on one packed word; None for a type it ignores. */
  function Route(ret: bv32): Result<Option<Target>, SysError> {
    var level := LevelOf(ret);
    var t := TypeOf(ret);
    if t == 1 then
      if level == 2 then Ok(Some(L2))
      else if level == 3 then Ok(Some(L3))
      else Err(UnsupportedUnified)
    else if t == 2 then
      if level == 1 then Ok(Some(L1d)) else Err(MultiLevelData)
    else if t == 3 then
      if level == 1 then Ok(Some(L1i)) else Err(MultiLevelInstruction)
    else Ok(None)
  }

  /**
   * Where a cache of a given type and level belongs: unified L2 and L3,
   * data and instruction L1; every other combination is unsupported.
   */
  function Placement(t: CacheType, level: bv32): Result<Target, SysError> {
    match t
    case Unified => if level == 2 then Ok(L2) else if level == 3 then Ok(L3) else Err(UnsupportedUnified)
    case Data => if level == 1 then Ok(L1d) else Err(MultiLevelData)
    case Instruction => if level == 1 then Ok(L1i) else Err(MultiLevelInstruction)
  }

  /** Through the packed word, a directory with a level below 2^16 is routed to its placement. */
  lemma RouteOfPack(t: CacheType, level: bv32)
    requires level < 0x1_0000
    ensures Route(Pack(level, TypeCode(t))) ==
              match Placement(t, level)
              case Ok(tg) => Ok(Some(tg))
              case Err(e) => Err(e)
  {
    PackRoundTrip(level, TypeCode(t));
  }

  /** What one directory does: the target it fills (if any) or the reason the probe dies. */
  function DirRoute(d: CacheDir): Result<Option<Target>, SysError> {
    match ReadCacheDir(d)
    case Err(e) => Err(e)
    case Ok(p) => Route(p.0)
  }

  function DirInfo(d: CacheDir): CacheInfo {
    CacheInfo(d.sets, Wrap32(d.sizeKiB * 1024), d.assos)
  }

  /** The four caller-provided `cache_info_t` records. */
  datatype Caches = Caches(l1d: CacheInfo, l1i: CacheInfo, l2: CacheInfo, l3: CacheInfo) {
    function Get(t: Target): CacheInfo {
      match t
      case L1d => l1d
      case L1i => l1i
      case L2 => l2
      case L3 => l3
    }

    function Set(t: Target, ci: CacheInfo): (c: Caches)
      ensures c.Get(t) == ci && forall u :: u != t ==> c.Get(u) == Get(u)
    {
      match t
      case L1d => this.(l1d := ci)
      case L1i => this.(l1i := ci)
      case L2 => this.(l2 := ci)
      case L3 => this.(l3 := ci)
    }
  }

  /** What reading one directory does: where it is routed (or why the probe dies), and what it read. */
  datatype Effect = Effect(route: Result<Option<Target>, SysError>, info: CacheInfo)

  /**
   * A directory whose type file names no known type dies with that error; one
   * of a known type and a level below 2^16 is routed to its placement, or
   * dies with the placement's error.  What it read is kept with the route.
   */
  function EffectOf(d: CacheDir): (e: Effect)
    ensures CacheTypeOf(d.typeText).Err? ==> e.route == Err(CacheTypeOf(d.typeText).error)
    ensures CacheTypeOf(d.typeText).Ok? && d.level < 0x1_0000 ==>
              e.route == match Placement(CacheTypeOf(d.typeText).value, d.level)
                         case Ok(tg) => Ok(Some(tg))
                         case Err(x) => Err(x)
    ensures e.info == DirInfo(d)
  {
    var e := Effect(DirRoute(d), DirInfo(d));
    if CacheTypeOf(d.typeText).Ok? && d.level < 0x1_0000 then
      RouteOfPack(CacheTypeOf(d.typeText).value, d.level);
      e
    else
      e
  }

  function Effects(dirs: seq<CacheDir>): (es: seq<Effect>)
    ensures |es| == |dirs| && forall i :: 0 <= i < |dirs| ==> es[i] == EffectOf(dirs[i])
  {
    seq(|dirs|, i requires 0 <= i < |dirs| => EffectOf(dirs[i]))
  }

  /** The effect of one directory on the records. */
  function Step(c: Caches, e: Effect): (r: Result<Caches, SysError>)
    ensures r.Err? <==> e.route.Err?
    ensures r.Err? ==> r.error == e.route.error
    ensures r.Ok? ==> forall t :: r.value.Get(t) == if e.route == Ok(Some(t)) then e.info else c.Get(t)
  {
    match e.route
    case Err(err) => Err(err)
    case Ok(None) => Ok(c)
    case Ok(Some(t)) => Ok(c.Set(t, e.info))
  }

  /** The records after the effects in order, or the first error. */
  function Apply(init: Caches, es: seq<Effect>): Result<Caches, SysError> {
    if |es| == 0 then Ok(init)
    else
      match Apply(init, es[..|es| - 1])
      case Err(e) => Err(e)
      case Ok(c) => Step(c, es[|es| - 1])
  }

  /** The records after the directories have been read in order, or the first error. */
  function CacheInfoSpec(init: Caches, dirs: seq<CacheDir>): Result<Caches, SysError> {
    Apply(init, Effects(dirs))
  }

  /** The run dies exactly when some effect is an error. */
  lemma {:induction false} ApplyFails(init: Caches, es: seq<Effect>)
    ensures Apply(init, es).Err? <==> exists i :: 0 <= i < |es| && es[i].route.Err?
  {
    if |es| > 0 {
      var pre := es[..|es| - 1];
      ApplyFails(init, pre);
      if Apply(init, pre).Ok? {
        if !es[|es| - 1].route.Err? {
          forall i | 0 <= i < |es| ensures !es[i].route.Err? {
            if i < |pre| {
              assert es[i] == pre[i];
            }
          }
        }
      } else {
        var i :| 0 <= i < |pre| && pre[i].route.Err?;
        assert es[i] == pre[i];
      }
    }
  }

  /** A record no effect is routed to keeps its initial contents. */
  lemma {:induction false} ApplyUntouched(init: Caches, es: seq<Effect>, t: Target)
    requires Apply(init, es).Ok?
    requires forall i :: 0 <= i < |es| ==> es[i].route != Ok(Some(t))
    ensures Apply(init, es).value.Get(t) == init.Get(t)
  {
    if |es| > 0 {
      var pre := es[..|es| - 1];
      assert forall i :: 0 <= i < |pre| ==> pre[i] == es[i];
      ApplyUntouched(init, pre, t);
    }
  }

  /** Otherwise a record holds the info of the last effect routed to it. */
  lemma {:induction false} ApplyLastWins(init: Caches, es: seq<Effect>, t: Target, i: nat)
    requires Apply(init, es).Ok?
    requires i < |es| && es[i].route == Ok(Some(t))
    requires forall j :: i < j < |es| ==> es[j].route != Ok(Some(t))
    ensures Apply(init, es).value.Get(t) == es[i].info
  {
    var pre := es[..|es| - 1];
    if i < |es| - 1 {
      assert forall j :: 0 <= j < |pre| ==> pre[j] == es[j];
      ApplyLastWins(init, pre, t, i);
    }
  }

  /** `read_cache_info` on directories dies exactly when some directory fails. */
  lemma CacheInfoFails(init: Caches, dirs: seq<CacheDir>)
    ensures CacheInfoSpec(init, dirs).Err? <==> exists i :: 0 <= i < |dirs| && DirRoute(dirs[i]).Err?
  {
    var es := Effects(dirs);
    ApplyFails(init, es);
    if exists i :: 0 <= i < |es| && es[i].route.Err? {
      var i :| 0 <= i < |es| && es[i].route.Err?;
      assert DirRoute(dirs[i]).Err?;
    }
  }

  /** A record no directory is routed to is left as the caller passed it. */
  lemma CacheInfoUntouched(init: Caches, dirs: seq<CacheDir>, t: Target)
    requires CacheInfoSpec(init, dirs).Ok?
    requires forall i :: 0 <= i < |dirs| ==> DirRoute(dirs[i]) != Ok(Some(t))
    ensures CacheInfoSpec(init, dirs).value.Get(t) == init.Get(t)
  {
    ApplyUntouched(init, Effects(dirs), t);
  }

  /** Otherwise the record holds what the last directory routed there read. */
  lemma CacheInfoLastWins(init: Caches, dirs: seq<CacheDir>, t: Target, i: nat)
    requires CacheInfoSpec(init, dirs).Ok?
    requires i < |dirs| && DirRoute(dirs[i]) == Ok(Some(t))
    requires forall j :: i < j < |dirs| ==> DirRoute(dirs[j]) != Ok(Some(t))
    ensures CacheInfoSpec(init, dirs).value.Get(t) == DirInfo(dirs[i])
  {
    var es := Effects(dirs);
    assert forall j :: i < j < |es| ==> es[j].route == DirRoute(dirs[j]);
    ApplyLastWins(init, es, t, i);
  }

  /**
   * The dispatch of one packed word in `read_cache_info`: copy `ci_out` into
   * the record the level and type select, or die.
   */
  method Dispatch(caches: Caches, ret: bv32, ciOut: CacheInfo) returns (r: Result<Caches, SysError>)
    ensures r == match Route(ret)
                 case Err(e) => Err(e)
                 case Ok(None) => Ok(caches)
                 case Ok(Some(t)) => Ok(caches.Set(t, ciOut))
  {
    var levelInfo := ret & 0xffff;
    var typeInfo := ret >> 16;
    if typeInfo == 1 {
      if levelInfo == 2 {
        return Ok(caches.(l2 := ciOut));
      } else if levelInfo == 3 {
        return Ok(caches.(l3 := ciOut));
      } else {
        return Err(UnsupportedUnified);
      }
    } else if typeInfo == 2 {
      if levelInfo != 1 {
        return Err(MultiLevelData);
      }
      return Ok(caches.(l1d := ciOut));
    } else if typeInfo == 3 {
      if levelInfo != 1 {
        return Err(MultiLevelInstruction);
      }
      return Ok(caches.(l1i := ciOut));
    }
    return Ok(caches);
  }

  /** Once a prefix fails, the whole run fails with the same error. */
  lemma {:induction false} ApplyErrSticks(init: Caches, es: seq<Effect>, k: nat)
    requires k <= |es| && Apply(init, es[..k]).Err?
    ensures Apply(init, es) == Apply(init, es[..k])
    decreases |es| - k
  {
    if k < |es| {
      assert es[..k + 1][..k] == es[..k];
      ApplyErrSticks(init, es, k + 1);
    } else {
      assert es[..k] == es;
    }
  }

  /** `read_cache_info` over the directories `index0`, `index1`, ... that exist. */
  method ReadCacheInfo(init: Caches, dirs: seq<CacheDir>) returns (r: Result<Caches, SysError>)
    ensures r == CacheInfoSpec(init, dirs)
  {
    ghost var es := Effects(dirs);
    var caches := init;
    var i := 0;
    while i < |dirs|
      invariant i <= |dirs| && Apply(init, es[..i]) == Ok(caches)
    {
      assert es[..i + 1][..i] == es[..i];
      var dir := ReadCacheDir(dirs[i]);
      var next: Result<Caches, SysError>;
      if dir.Err? {
        next := Err(dir.error);
      } else {
        next := Dispatch(caches, dir.value.0, dir.value.1);
      }
      assert Step(caches, es[i]) == next;
      if next.Err? {
        ApplyErrSticks(init, es, i + 1);
        return next;
      }
      caches := next.value;
      i := i + 1;
    }
    assert es[..i] == es;
    return Ok(caches);
  }
}
