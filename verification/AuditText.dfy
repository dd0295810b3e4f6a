/** The audit log as a text file: how it splits into lines, and what appending does to the split. */
module AuditText {

  // Rust's `char::is_whitespace` (the Unicode White_Space property).
  predicate IsSpace(ch: char) {
    var n := ch as int;
    || 0x09 <= n <= 0x0D || n == 0x20 || n == 0x85 || n == 0xA0 || n == 0x1680
    || 0x2000 <= n <= 0x200A || n == 0x2028 || n == 0x2029 || n == 0x202F || n == 0x205F || n == 0x3000
  }

  // `line.trim().is_empty()`
  predicate Blank(line: string) {
    forall i :: 0 <= i < |line| ==> IsSpace(line[i])
  }

  function FirstNewline(s: string): (k: nat)
    ensures k <= |s|
    ensures '\n' !in s[..k]
    ensures k < |s| ==> s[k] == '\n'
  {
    if s == [] || s[0] == '\n' then 0
    else
      var k := 1 + FirstNewline(s[1..]);
      assert s[..k] == [s[0]] + s[1..][..k - 1];
      k
  }

  function StripCr(line: string): string {
    if line != [] && line[|line| - 1] == '\r' then line[..|line| - 1] else line
  }

  /** `str::lines`: terminated lines lose "\n" or "\r\n"; an unterminated tail is a line as it stands. */
  function Lines(text: string): seq<string>
    decreases |text|
  {
    if text == [] then []
    else
      var k := FirstNewline(text);
      if k == |text| then [text] else [StripCr(text[..k])] + Lines(text[k + 1..])
  }

  predicate Terminated(text: string) {
    text == [] || text[|text| - 1] == '\n'
  }

  // What the event serialiser yields: one line that the splitter gives back unchanged.
  predicate SingleLine(line: string) {
    '\n' !in line && !Blank(line) && StripCr(line) == line
  }

  lemma FirstNewlineIs(s: string, k: nat)
    requires k < |s| && s[k] == '\n' && '\n' !in s[..k]
    ensures FirstNewline(s) == k
  {
    var m := FirstNewline(s);
    assert forall i :: 0 <= i < k ==> s[i] == s[..k][i];
    assert forall i :: 0 <= i < m ==> s[i] == s[..m][i];
  }

  // The first line of a terminated text, with whatever follows the text.
  lemma FirstLineOff(text: string, rest: string) returns (k: nat)
    requires Terminated(text) && text != []
    ensures k < |text| && FirstNewline(text) == k && Terminated(text[k + 1..])
    ensures FirstNewline(text + rest) == k
    ensures (text + rest)[..k] == text[..k] && (text + rest)[k + 1..] == text[k + 1..] + rest
  {
    k := FirstNewline(text);
    assert text[|text| - 1] in text;
    assert text[..|text|] == text;
    assert (text + rest)[..k] == text[..k];
    FirstNewlineIs(text + rest, k);
  }

  lemma {:induction false} LinesConcat(text: string, rest: string)
    requires Terminated(text)
    ensures Lines(text + rest) == Lines(text) + Lines(rest)
    decreases |text|
  {
    if text == [] {
      assert text + rest == rest;
    } else {
      var k := FirstLineOff(text, rest);
      LinesConcat(text[k + 1..], rest);
      LinesOfFirst(text, k);
      LinesOfFirst(text + rest, k);
    }
  }

  lemma {:induction false} LinesOfFirst(text: string, k: nat)
    requires k < |text| && FirstNewline(text) == k
    ensures Lines(text) == [StripCr(text[..k])] + Lines(text[k + 1..])
  {
    var rest := text[k + 1..];
    assert text != [] && k != |text|;
  }

  /** Appending one serialised line, with or without its newline yet, adds exactly that line. */
  lemma LinesAppend(text: string, line: string)
    requires Terminated(text) && SingleLine(line)
    ensures Lines(text + line) == Lines(text) + [line]
    ensures Lines(text + line + "\n") == Lines(text) + [line]
  {
    LinesConcat(text, line);
    LinesConcat(text, line + "\n");
    assert text + line + "\n" == text + (line + "\n");
    assert line != [] && FirstNewline(line) == |line|;
    var full := line + "\n";
    assert full[|line|] == '\n';
    var k := FirstNewline(full);
    assert k == |line|;
    assert full[..k] == line && full[k + 1..] == [];
  }

  lemma FirstLineIs(head: string, rest: string)
    requires '\n' !in head
    ensures Lines(head + "\n" + rest) == [StripCr(head)] + Lines(rest)
  {
    var text, k := head + "\n" + rest, |head|;
    assert text[k] == '\n' && text[..k] == head && text[k + 1..] == rest;
    FirstNewlineIs(text, k);
    LinesOfFirst(text, k);
  }

  lemma CrIsStripped(line: string)
    requires line == [] || line[|line| - 1] != '\r'
    ensures StripCr(line) == line && StripCr(line + "\r") == line
  {
    assert (line + "\r")[..|line|] == line;
  }

  /** Both line ends are taken off, and a carriage return in the middle of a line is not. */
  lemma LineEnds(line: string, rest: string)
    requires '\n' !in line && (line == [] || line[|line| - 1] != '\r')
    ensures Lines(line + "\n" + rest) == [line] + Lines(rest)
    ensures Lines(line + "\r" + "\n" + rest) == [line] + Lines(rest)
  {
    CrIsStripped(line);
    FirstLineIs(line, rest);
    FirstLineIs(line + "\r", rest);
  }

  /** What counts as white space: the ASCII blanks and the Unicode ones, and nothing that a line of JSON
      starts with. */
  lemma SpacesAre(ch: char)
    ensures ch in {' ', '\t', '\n', '\r'} ==> IsSpace(ch)
    ensures '!' <= ch <= '~' ==> !IsSpace(ch)
    ensures IsSpace(ch) <==> ch as int in {9, 10, 11, 12, 13, 32, 133, 160, 5760, 8192, 8193, 8194, 8195, 8196,
      8197, 8198, 8199, 8200, 8201, 8202, 8232, 8233, 8239, 8287, 12288}
  {
  }

  lemma GluedIsSingleLine(tail: string, line: string)
    requires '\n' !in tail && SingleLine(line)
    ensures SingleLine(tail + line)
  {
    var glued := tail + line;
    var i :| 0 <= i < |line| && !IsSpace(line[i]);
    assert glued[|tail| + i] == line[i];
    assert glued[|glued| - 1] == line[|line| - 1];
  }

  lemma UnterminatedTail(base: string, tail: string)
    requires Terminated(base) && tail != [] && '\n' !in tail
    ensures Lines(base + tail) == Lines(base) + [tail]
  {
    LinesConcat(base, tail);
    assert FirstNewline(tail) == |tail|;
  }

  lemma GluedText(base: string, tail: string, line: string)
    ensures base + tail + line + "\n" == base + (tail + line) + "\n"
  {
    assert base + tail + line == base + (tail + line);
  }

  /** Appending to a log whose last write was torn: no new line, the torn one grows. */
  lemma LinesAppendTorn(base: string, tail: string, line: string)
    requires Terminated(base) && tail != [] && '\n' !in tail && SingleLine(line)
    ensures Lines(base + tail + line + "\n") == Lines(base) + [tail + line]
  {
    GluedText(base, tail, line);
    GluedIsSingleLine(tail, line);
    LinesAppend(base, tail + line);
  }
}
