/**
 How git writes a path that is not plain text: the input that the parsers of gitdiff/gitdiff.go meet, since
 they neither ask for raw paths nor undo the quoting.
 */
module GitQuoting {

  /** Never written raw; with `full` (core.quotePath, on by default) no character beyond ASCII is, either. */
  predicate Special(c: char, full: bool) {
    c < ' ' || c == '"' || c == '\\' || c as int == 127 || (full && c as int >= 128)
  }

  predicate NeedsQuotes(path: string, full: bool) {
    exists i :: 0 <= i < |path| && Special(path[i], full)
  }

  /** The UTF-8 bytes of a character. */
  function Utf8(c: char): (bytes: seq<int>)
    ensures bytes != [] && forall i :: 0 <= i < |bytes| ==> 0 <= bytes[i] < 256
  {
    var n := c as int;
    if n < 0x80 then [n]
    else if n < 0x800 then [0xC0 + n / 0x40, 0x80 + n % 0x40]
    else if n < 0x1_0000 then [0xE0 + n / 0x1000, 0x80 + n / 0x40 % 0x40, 0x80 + n % 0x40]
    else [0xF0 + n / 0x4_0000, 0x80 + n / 0x1000 % 0x40, 0x80 + n / 0x40 % 0x40, 0x80 + n % 0x40]
  }

  function Digit(n: int): (c: char)
    requires 0 <= n < 10
    ensures '0' <= c <= '9'
  {
    ('0' as int + n) as char
  }

  function Octals(bytes: seq<int>): (s: string)
    requires forall i :: 0 <= i < |bytes| ==> 0 <= bytes[i] < 256
    ensures |s| == 4 * |bytes| && forall i :: 0 <= i < |s| ==> s[i] == '\\' || '0' <= s[i] <= '9'
    ensures bytes != [] ==> s[0] == '\\'
  {
    if bytes == [] then ""
    else ['\\', Digit(bytes[0] / 64), Digit(bytes[0] / 8 % 8), Digit(bytes[0] % 8)] + Octals(bytes[1..])
  }

  function Escape(c: char, full: bool): (s: string)
    ensures !Special(c, full) ==> s == [c]
    ensures Special(c, full) ==> |s| > 1 && s[0] == '\\' && ' ' !in s
    ensures forall i :: 0 <= i < |s| ==> s[i] >= ' '
  {
    if !Special(c, full) then [c]
    else if c == '"' || c == '\\' then ['\\', c]
    else
      match c as int
      case 7 => "\\a"
      case 8 => "\\b"
      case 9 => "\\t"
      case 10 => "\\n"
      case 11 => "\\v"
      case 12 => "\\f"
      case 13 => "\\r"
      case _ => Octals(Utf8(c))
  }

  function Escaped(s: string, full: bool): string {
    if s == "" then "" else Escape(s[0], full) + Escaped(s[1..], full)
  }

  /** The path as git writes it. */
  function Quoted(path: string, full: bool): string {
    if NeedsQuotes(path, full) then "\"" + Escaped(path, full) + "\"" else path
  }

  lemma {:induction false} EscapedShape(s: string, full: bool)
    ensures |Escaped(s, full)| >= |s|
    ensures forall i :: 0 <= i < |Escaped(s, full)| ==> Escaped(s, full)[i] >= ' '
  {
    if s != "" { EscapedShape(s[1..], full); }
  }

  /** What is written is one line without tabs; quoting makes a path longer, and no other path is changed. */
  lemma QuotedShape(path: string, full: bool)
    ensures forall i :: 0 <= i < |Quoted(path, full)| ==> Quoted(path, full)[i] >= ' '
    ensures if NeedsQuotes(path, full) then |Quoted(path, full)| > |path| else Quoted(path, full) == path
  {
    EscapedShape(path, full);
    if !NeedsQuotes(path, full) {
      forall i | 0 <= i < |path| ensures path[i] >= ' ' { assert !Special(path[i], full); }
    }
  }

  lemma QuotedOneLine(path: string, full: bool)
    ensures '\n' !in Quoted(path, full) && '\t' !in Quoted(path, full)
  {
    QuotedShape(path, full);
  }

  lemma PlainFront(c: char, s: string, full: bool)
    requires !Special(c, full)
    ensures NeedsQuotes([c] + s, full) <==> NeedsQuotes(s, full)
    ensures Escaped([c] + s, full) == [c] + Escaped(s, full)
  {
    var whole := [c] + s;
    assert whole[1..] == s && whole[0] == c;
    if i :| 0 <= i < |s| && Special(s[i], full) { assert whole[i + 1] == s[i]; }
    if i :| 0 <= i < |whole| && Special(whole[i], full) { assert s[i - 1] == whole[i]; }
  }

  /** A side of a diff header, as "a/path". */
  function Side(side: char, path: string): string { [side] + (['/'] + path) }

  /** The prefix is quoted together with the path. */
  lemma QuotedSide(side: char, path: string, full: bool)
    requires side == 'a' || side == 'b'
    ensures Quoted(Side(side, path), full)
            == if NeedsQuotes(path, full) then "\"" + Side(side, Escaped(path, full) + "\"") else Side(side, path)
  {
    PlainFront('/', path, full);
    PlainFront(side, ['/'] + path, full);
    var e := Escaped(path, full);
    assert "\"" + ([side] + (['/'] + e)) + "\"" == "\"" + ([side] + (['/'] + (e + "\"")));
  }

  /** The bytes of an accented letter: U+00E9 is written as \303\251. */
  lemma AccentQuoted()
    ensures Escape('\U{00E9}', true) == "\\303\\251" && Escape('\U{00E9}', false) == "\U{00E9}"
  {
    assert Utf8('\U{00E9}') == [0xC3, 0xA9];
    assert Octals([0xA9]) == "\\251" && [0xC3, 0xA9][1..] == [0xA9];
  }
}
