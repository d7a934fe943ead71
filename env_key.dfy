/** Reading the API key from the `~/.env` file. All three scripts share the same
    loop: take the first line that starts with `VITE_GEMINI_API_KEY=`, strip it,
    and keep what follows the first `=`. */
module EnvKey {
  import opened Service

  const KeyName := "VITE_GEMINI_API_KEY"
  const KeyPrefix := KeyName + "="

  /** Python's `str.isspace` on one character. */
  predicate IsSpace(c: char) {
    var n := c as int;
    || (9 <= n <= 13) || (28 <= n <= 32) || n == 0x85 || n == 0xA0 || n == 0x1680
    || (0x2000 <= n <= 0x200A) || n == 0x2028 || n == 0x2029 || n == 0x202F
    || n == 0x205F || n == 0x3000
  }

  /** Length of the first line of a non-empty text, its `\n` included. */
  function FirstLineLength(text: string): (n: nat)
    requires text != []
    ensures 0 < n <= |text|
    ensures forall i :: 0 <= i < n - 1 ==> text[i] != '\n'
    ensures n < |text| ==> text[n - 1] == '\n'
    decreases |text|
  {
    if text[0] == '\n' || |text| == 1 then 1 else 1 + FirstLineLength(text[1..])
  }

  /** The lines that iterating over a text file yields, each keeping its `\n`. */
  function Lines(text: string): (lines: seq<string>)
    decreases |text|
  {
    if text == [] then []
    else
      var n := FirstLineLength(text);
      [text[..n]] + Lines(text[n..])
  }

  function Join(lines: seq<string>): string
    decreases |lines|
  {
    if lines == [] then [] else lines[0] + Join(lines[1..])
  }

  /** A line holds `\n` only as its final character. */
  predicate IsLine(line: string) {
    line != [] && forall i :: 0 <= i < |line| - 1 ==> line[i] != '\n'
  }

  /** Splitting a text into lines loses nothing. */
  lemma {:induction false} LinesJoinToText(text: string)
    ensures Join(Lines(text)) == text
    decreases |text|
  {
    if text != [] {
      var n := FirstLineLength(text);
      LinesJoinToText(text[n..]);
      assert Lines(text)[1..] == Lines(text[n..]);
      assert text[..n] + text[n..] == text;
    }
  }

  /** Every line holds `\n` only at its end, and every line but the last has one. */
  lemma {:induction false} LinesAreLines(text: string)
    ensures forall k :: 0 <= k < |Lines(text)| ==> IsLine(Lines(text)[k])
    ensures forall k :: 0 <= k < |Lines(text)| - 1 ==>
      Lines(text)[k] != [] && Lines(text)[k][|Lines(text)[k]| - 1] == '\n'
    decreases |text|
  {
    if text != [] {
      var n := FirstLineLength(text);
      var rest := Lines(text[n..]);
      LinesAreLines(text[n..]);
      assert Lines(text) == [text[..n]] + rest;
      assert IsLine(text[..n]);
      assert |rest| > 0 ==> text[..n][n - 1] == '\n' by {
        if |rest| > 0 { assert text[n..] != []; }
      }
    }
  }

  /** Python's `s.lstrip()`. */
  function TrimStart(s: string): (r: string)
    ensures |r| <= |s| && r == s[|s| - |r|..]
    ensures forall i :: 0 <= i < |s| - |r| ==> IsSpace(s[i])
    ensures r != [] ==> !IsSpace(r[0])
    decreases |s|
  {
    if s != [] && IsSpace(s[0]) then TrimStart(s[1..]) else s
  }

  /** Python's `s.rstrip()`. */
  function TrimEnd(s: string): (r: string)
    ensures |r| <= |s| && r == s[..|r|]
    ensures forall i :: |r| <= i < |s| ==> IsSpace(s[i])
    ensures r != [] ==> !IsSpace(r[|r| - 1])
    decreases |s|
  {
    if s != [] && IsSpace(s[|s| - 1]) then TrimEnd(s[..|s| - 1]) else s
  }

  /** Python's `s.strip()`: whitespace removed at both ends. */
  function Strip(s: string): (r: string)
    ensures |r| <= |s|
    ensures r != [] ==> !IsSpace(r[0]) && !IsSpace(r[|r| - 1])
  {
    TrimEnd(TrimStart(s))
  }

  /** Python's `s.split(sep, 1)`: the whole string when `sep` is absent, otherwise
      the text before and the text after its first occurrence. */
  function SplitOnce(s: string, sep: char): (parts: seq<string>)
    ensures |parts| == 1 || |parts| == 2
    ensures |parts| == 1 <==> sep !in s
    ensures |parts| == 1 ==> parts[0] == s
    ensures |parts| == 2 ==> parts[0] + [sep] + parts[1] == s && sep !in parts[0]
    decreases |s|
  {
    if s == [] then [s]
    else if s[0] == sep then [[], s[1..]]
    else
      var rest := SplitOnce(s[1..], sep);
      assert s == [s[0]] + s[1..];
      if |rest| == 1 then [s] else [[s[0]] + rest[0], rest[1]]
  }

  predicate IsKeyLine(line: string) {
    |KeyPrefix| <= |line| && line[..|KeyPrefix|] == KeyPrefix
  }

  /** On a key line stripping only trims the end, and the prefix survives it. */
  lemma StripKeyLine(line: string)
    requires IsKeyLine(line)
    ensures Strip(line) == TrimEnd(line)
    ensures |KeyPrefix| <= |Strip(line)| && Strip(line)[..|KeyPrefix|] == KeyPrefix
  {
    assert line[0] == KeyPrefix[0];
    assert TrimStart(line) == line;
    assert line[|KeyPrefix| - 1] == '=' && !IsSpace(line[|KeyPrefix| - 1]);
  }

  /** The key on a key line: `line.strip().split("=", 1)[1]`. */
  function KeyValue(line: string): string
    requires IsKeyLine(line)
  {
    StripKeyLine(line);
    assert Strip(line)[|KeyPrefix| - 1] == '=';
    var parts := SplitOnce(Strip(line), '=');
    parts[1]
  }

  lemma NoEqualsInKeyName()
    ensures forall i :: 0 <= i < |KeyName| ==> KeyName[i] != '='
  {
  }

  /** In a text that starts with the prefix, the first `=` is the prefix's last character. */
  lemma FirstEqualsEndsPrefix(s: string)
    requires |KeyPrefix| <= |s| && s[..|KeyPrefix|] == KeyPrefix
    ensures s[|KeyName|] == '='
    ensures forall i :: 0 <= i < |KeyName| ==> s[i] != '='
  {
    NoEqualsInKeyName();
    assert s[..|KeyName|] == KeyName;
    forall i | 0 <= i < |KeyName|
      ensures s[i] != '='
    {
      assert s[i] == s[..|KeyName|][i];
    }
  }

  /** Splitting at the first occurrence of the separator, wherever it is. */
  lemma {:induction false} SplitOnceAtFirst(s: string, sep: char, p: nat)
    requires p < |s| && s[p] == sep
    requires forall i :: 0 <= i < p ==> s[i] != sep
    ensures SplitOnce(s, sep) == [s[..p], s[p + 1..]]
    decreases p
  {
    if p > 0 {
      SplitOnceAtFirst(s[1..], sep, p - 1);
      assert [s[0]] + s[1..][..p - 1] == s[..p];
    }
  }

  /** The key is everything after the prefix, with trailing whitespace removed:
      the first `=` is the one that closes the prefix. */
  lemma KeyValueIsRestOfLine(line: string)
    requires IsKeyLine(line)
    ensures |KeyPrefix| <= |TrimEnd(line)| && KeyValue(line) == TrimEnd(line)[|KeyPrefix|..]
  {
    StripKeyLine(line);
    var s := Strip(line);
    FirstEqualsEndsPrefix(s);
    SplitOnceAtFirst(s, '=', |KeyName|);
  }

  /** A key line `KeyPrefix + v + ws`, with `ws` whitespace and `v` not ending in
      whitespace, yields exactly `v`: an `=` or leading blank inside `v` is kept. */
  lemma KeyValueKeepsValue(v: string, ws: string)
    requires forall i :: 0 <= i < |ws| ==> IsSpace(ws[i])
    requires v == [] || !IsSpace(v[|v| - 1])
    ensures IsKeyLine(KeyPrefix + v + ws)
    ensures KeyValue(KeyPrefix + v + ws) == v
  {
    var a := KeyPrefix + v;
    var line := a + ws;
    assert line[..|KeyPrefix|] == KeyPrefix;
    assert !IsSpace(a[|a| - 1]);
    var r := TrimEnd(line);
    assert forall i :: |a| <= i < |line| ==> line[i] == ws[i - |a|];
    assert line[|a| - 1] == a[|a| - 1];
    assert r[..] == line[..|r|];
    assert |r| == |a|;
    assert r == a;
    KeyValueIsRestOfLine(line);
    assert a[|KeyPrefix|..] == v;
  }

  /** The key of the first key line, if there is one (the loop's `break`). */
  function KeyOf(lines: seq<string>): Option<string>
    decreases |lines|
  {
    if lines == [] then None
    else if IsKeyLine(lines[0]) then Some(KeyValue(lines[0]))
    else KeyOf(lines[1..])
  }

  /** The key comes from the first key line, whatever follows it. */
  lemma {:induction false} KeyFromFirstKeyLine(lines: seq<string>, i: nat)
    requires i < |lines| && IsKeyLine(lines[i])
    requires forall j :: 0 <= j < i ==> !IsKeyLine(lines[j])
    ensures KeyOf(lines) == Some(KeyValue(lines[i]))
    decreases i
  {
    if i > 0 {
      KeyFromFirstKeyLine(lines[1..], i - 1);
    }
  }

  /** There is no key exactly when no line is a key line. */
  lemma {:induction false} NoKeyWithoutKeyLine(lines: seq<string>)
    ensures KeyOf(lines).None? <==> forall j :: 0 <= j < |lines| ==> !IsKeyLine(lines[j])
    decreases |lines|
  {
    if lines != [] {
      NoKeyWithoutKeyLine(lines[1..]);
      assert forall j :: 1 <= j < |lines| ==> lines[j] == lines[1..][j - 1];
    }
  }

  /** Once a key line has been read, later lines cannot change the key. */
  lemma {:induction false} LaterLinesIgnored(lines: seq<string>, more: seq<string>)
    requires KeyOf(lines).Some?
    ensures KeyOf(lines + more) == KeyOf(lines)
    decreases |lines|
  {
    assert lines != [];
    assert (lines + more)[0] == lines[0];
    if !IsKeyLine(lines[0]) {
      assert (lines + more)[1..] == lines[1..] + more;
      LaterLinesIgnored(lines[1..], more);
    }
  }

  /** The scanning loop over the file's lines, stopping at the first key line. */
  method LoadApiKey(lines: seq<string>) returns (key: Option<string>)
    ensures key == KeyOf(lines)
    ensures key.Some? <==> exists j :: 0 <= j < |lines| && IsKeyLine(lines[j])
  {
    key := None;
    var i := 0;
    while i < |lines|
      invariant 0 <= i <= |lines|
      invariant key.None?
      invariant forall j :: 0 <= j < i ==> !IsKeyLine(lines[j])
    {
      if IsKeyLine(lines[i]) {
        key := Some(KeyValue(lines[i]));
        KeyFromFirstKeyLine(lines, i);
        break;
      }
      i := i + 1;
    }
    NoKeyWithoutKeyLine(lines);
  }
}
