/** The fence reader of scripts/check-decisions.ts: the lines of a document outside its fenced blocks. */
module FencedBlocks {
  import opened Prelude
  import StylesheetText

  /** A run of at least three backquotes or tildes at the start of a line. */
  datatype Fence = Fence(mark: char, length: nat)

  /** How many copies of `mark` the line has from `at` on. */
  function RunLength(line: string, at: nat, mark: char): (n: nat)
    requires at <= |line|
    ensures at + n <= |line|
    ensures forall k :: at <= k < at + n ==> line[k] == mark
    ensures at + n < |line| ==> line[at + n] != mark
    decreases |line| - at
  {
    if at < |line| && line[at] == mark then 1 + RunLength(line, at + 1, mark) else 0
  }

  function Indent(line: string): (n: nat)
    ensures n <= |line|
    ensures forall k :: 0 <= k < n ==> StylesheetText.IsSpace(line[k])
    ensures n < |line| ==> !StylesheetText.IsSpace(line[n])
  {
    if line == "" || !StylesheetText.IsSpace(line[0]) then 0 else 1 + Indent(line[1..])
  }

  /** The fence a line opens or closes with, if it has one. */
  function Marker(line: string): (m: Option<Fence>)
    ensures m.Some? ==> m.value.length >= 3
  {
    var at := Indent(line);
    if at == |line| || line[at] !in "`~" then None
    else
      var length := RunLength(line, at, line[at]);
      if length < 3 then None else Some(Fence(line[at], length))
  }

  /** Behind white space up to `at` the line has `n` of the mark, at least three, and no more of it right behind. */
  predicate SpellsFence(line: string, at: nat, mark: char, n: nat) {
    && at + n <= |line| && n >= 3 && (mark == '`' || mark == '~')
    && (forall k :: 0 <= k < at ==> StylesheetText.IsSpace(line[k]))
    && (forall k :: at <= k < at + n ==> line[k] == mark)
    && (at + n < |line| ==> line[at + n] != mark)
  }

  lemma {:induction false} RunLengthIs(line: string, at: nat, mark: char, n: nat)
    requires at + n <= |line| && forall k :: at <= k < at + n ==> line[k] == mark
    requires at + n < |line| ==> line[at + n] != mark
    ensures RunLength(line, at, mark) == n
    decreases n
  {
    if n > 0 { RunLengthIs(line, at + 1, mark, n - 1); }
  }

  /** A line has a marker exactly when it spells one, and then that one. */
  lemma MarkerIsExact(line: string, f: Fence)
    ensures Marker(line) == Some(f) <==> exists at: nat :: SpellsFence(line, at, f.mark, f.length)
  {
    if Marker(line) == Some(f) {
      assert SpellsFence(line, Indent(line), f.mark, f.length);
    }
    forall at: nat | SpellsFence(line, at, f.mark, f.length)
      ensures Marker(line) == Some(f)
    {
      assert line[at] == f.mark && !StylesheetText.IsSpace(f.mark);
      assert Indent(line) == at;
      RunLengthIs(line, at, f.mark, f.length);
    }
  }

  /** A line closes a block exactly when it spells the block's own mark, at least as often. */
  lemma ClosesExactly(f: Fence, line: string)
    ensures Closes(f, line) <==> exists at: nat, n: nat :: SpellsFence(line, at, f.mark, n) && n >= f.length
  {
    if Closes(f, line) {
      MarkerIsExact(line, Marker(line).value);
    }
    forall at: nat, n: nat | SpellsFence(line, at, f.mark, n) && n >= f.length
      ensures Closes(f, line)
    {
      MarkerIsExact(line, Fence(f.mark, n));
    }
  }

  predicate Closes(f: Fence, line: string) {
    var m := Marker(line);
    m.Some? && m.value.mark == f.mark && m.value.length >= f.length
  }

  /** The lines kept from `lines`, starting inside the block `open`, if any. */
  function Outside(lines: seq<string>, open: Option<Fence>): seq<string> {
    if lines == [] then []
    else
      var line, rest := lines[0], lines[1..];
      match open
      case Some(f) => Outside(rest, if Closes(f, line) then None else open)
      case None =>
        if Marker(line).Some? then Outside(rest, Marker(line))
        else [line] + Outside(rest, None)
  }

  method LinesOutsideFences(content: seq<string>) returns (lines: seq<string>)
    ensures lines == Outside(content, None)
  {
    lines := [];
    var open: Option<Fence> := None;
    for i := 0 to |content|
      invariant lines + Outside(content[i..], open) == Outside(content, None)
    {
      var line := content[i];
      assert content[i..][0] == line && content[i..][1..] == content[i + 1..];
      var marker := Marker(line);
      if marker.Some? {
        if open.None? {
          open := marker;
          continue;
        }
        if marker.value.mark == open.value.mark && marker.value.length >= open.value.length {
          open := None;
          continue;
        }
      }
      if open.None? {
        assert Outside(content[i..], open) == [line] + Outside(content[i + 1..], open);
        lines := lines + [line];
      }
    }
  }

  // ---------------------------------------------------------------- documents

  /** A document as its author means it: plain lines, fenced blocks, perhaps one left open at the end. */
  datatype Document =
    | End
    | Plain(line: string, next: Document)
    | Block(opener: string, inner: seq<string>, closer: string, next: Document)
    | Unclosed(opener: string, inner: seq<string>)

  /** No line inside a block closes it; other fences may stand there. */
  ghost predicate Encloses(opener: string, inner: seq<string>) {
    Marker(opener).Some? && forall i :: 0 <= i < |inner| ==> !Closes(Marker(opener).value, inner[i])
  }

  ghost predicate WellFormed(d: Document) {
    match d
    case End => true
    case Plain(line, next) => Marker(line).None? && WellFormed(next)
    case Block(opener, inner, closer, next) =>
      Encloses(opener, inner) && Closes(Marker(opener).value, closer) && WellFormed(next)
    case Unclosed(opener, inner) => Encloses(opener, inner)
  }

  function Print(d: Document): seq<string> {
    match d
    case End => []
    case Plain(line, next) => [line] + Print(next)
    case Block(opener, inner, closer, next) => [opener] + (inner + ([closer] + Print(next)))
    case Unclosed(opener, inner) => [opener] + inner
  }

  function PlainLines(d: Document): seq<string> {
    match d
    case End => []
    case Plain(line, next) => [line] + PlainLines(next)
    case Block(_, _, _, next) => PlainLines(next)
    case Unclosed(_, _) => []
  }

  lemma {:induction false} InnerIsSkipped(f: Fence, inner: seq<string>, rest: seq<string>)
    requires forall i :: 0 <= i < |inner| ==> !Closes(f, inner[i])
    ensures Outside(inner + rest, Some(f)) == Outside(rest, Some(f))
  {
    if inner == [] {
      assert inner + rest == rest;
    } else {
      assert (inner + rest)[1..] == inner[1..] + rest;
      InnerIsSkipped(f, inner[1..], rest);
    }
  }

  /** Reading a document keeps its plain lines, all of them and in order, and nothing else. */
  lemma {:induction false} ReadsPlainLines(d: Document)
    requires WellFormed(d)
    ensures Outside(Print(d), None) == PlainLines(d)
  {
    match d
    case End =>
    case Plain(line, next) =>
      assert Print(d)[1..] == Print(next);
      ReadsPlainLines(next);
    case Block(opener, inner, closer, next) =>
      var f := Marker(opener).value;
      var tail := [closer] + Print(next);
      assert Print(d)[1..] == inner + tail;
      InnerIsSkipped(f, inner, tail);
      assert tail[1..] == Print(next);
      ReadsPlainLines(next);
    case Unclosed(opener, inner) =>
      assert Print(d)[1..] == inner + [];
      InnerIsSkipped(Marker(opener).value, inner, []);
  }

  // ---------------------------------------------------------------- every text is a document

  /** The document a text is, given that it starts inside the block `open` with `inner` read so far. */
  function Blocks(lines: seq<string>): Document
    decreases |lines|, 1
  {
    if lines == [] then End
    else if Marker(lines[0]).Some? then Inside(lines[0], [], lines[1..])
    else Plain(lines[0], Blocks(lines[1..]))
  }

  function Inside(opener: string, inner: seq<string>, lines: seq<string>): Document
    decreases |lines|, 0
  {
    if lines == [] || Marker(opener).None? then Unclosed(opener, inner + lines)
    else if Closes(Marker(opener).value, lines[0]) then Block(opener, inner, lines[0], Blocks(lines[1..]))
    else Inside(opener, inner + [lines[0]], lines[1..])
  }

  lemma {:induction false} InsideIsADocument(opener: string, inner: seq<string>, lines: seq<string>)
    requires Encloses(opener, inner)
    ensures WellFormed(Inside(opener, inner, lines))
    ensures Print(Inside(opener, inner, lines)) == [opener] + (inner + lines)
    decreases |lines|, 0
  {
    hide Marker, Closes;
    if lines == [] {
      assert inner + lines == inner;
    } else if Closes(Marker(opener).value, lines[0]) {
      EveryTextIsADocument(lines[1..]);
      assert [lines[0]] + lines[1..] == lines;
    } else {
      InsideIsADocument(opener, inner + [lines[0]], lines[1..]);
      assert inner + [lines[0]] + lines[1..] == inner + lines;
    }
  }

  /** So the reader's result on any text at all is given by `ReadsPlainLines`. */
  lemma {:induction false} EveryTextIsADocument(lines: seq<string>)
    ensures WellFormed(Blocks(lines)) && Print(Blocks(lines)) == lines
    decreases |lines|, 1
  {
    if lines != [] {
      if Marker(lines[0]).Some? {
        InsideIsADocument(lines[0], [], lines[1..]);
        assert [lines[0]] + ([] + lines[1..]) == lines;
      } else {
        EveryTextIsADocument(lines[1..]);
        assert [lines[0]] + lines[1..] == lines;
      }
    }
  }
}
