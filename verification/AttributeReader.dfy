/**
 `readAttributes` of scripts/check-ui-stylesheets.ts: the attribute text of one JSX
 element, found by a scanner with a stack of open delimiters.
 */
module AttributeReader {
  import opened Prelude

  predicate IsQuote(c: char) {
    c == '"' || c == '\'' || c == '`'
  }

  predicate IsOpener(c: char) {
    c == '{' || c == '(' || c == '['
  }

  predicate IsCloser(c: char) {
    c == '}' || c == ')' || c == ']'
  }

  /** Part of `=>` or `>=`. */
  predicate BesideEquals(source: string, i: nat) {
    (0 < i <= |source| && source[i - 1] == '=') || (i + 1 < |source| && source[i + 1] == '=')
  }

  /** `<` followed by `>`, `/` or the start of a name. */
  predicate StartsTag(source: string, i: nat) {
    i + 1 < |source| &&
    var c := source[i + 1];
    c == '>' || c == '/' || c == '_' || c == '$' || 'A' <= c <= 'Z' || 'a' <= c <= 'z'
  }

  /** The scanner's stack after the unquoted character at `i`; `None` when it ends the attributes. */
  function Turn(source: string, i: nat, open: seq<char>): Option<seq<char>>
    requires i < |source|
  {
    var c := source[i];
    var top := |open| - 1;
    if c == '>' && BesideEquals(source, i) then Some(open)
    else if c == '<' && !StartsTag(source, i) then Some(open)
    else if IsOpener(c) || c == '<' then Some(open + [c])
    else if IsCloser(c) then Some(if open == [] then [] else open[..top])
    else if c == '>' then
      if open == [] then None else if open[top] == '<' then Some(open[..top]) else Some(open)
    else Some(open)
  }

  /** Where the scanner stops: at the closing `>`, or at the end of the source. */
  function Scan(source: string, i: nat, open: seq<char>, quote: Option<char>): (end: nat)
    ensures i <= |source| ==> i <= end <= |source|
    decreases |source| - i
  {
    if i >= |source| then |source|
    else match quote
      case Some(q) =>
        if source[i] == '\\' then Scan(source, i + 2, open, quote)
        else Scan(source, i + 1, open, if source[i] == q then None else quote)
      case None =>
        if IsQuote(source[i]) then Scan(source, i + 1, open, Some(source[i]))
        else match Turn(source, i, open)
          case None => i
          case Some(next) => Scan(source, i + 1, next, None)
  }

  method ReadAttributes(source: string, start: nat) returns (attributes: string)
    requires start <= |source|
    ensures attributes == source[start..Scan(source, start, [], None)]
  {
    var open: seq<char> := [];
    var quote: Option<char> := None;
    var index := start;
    while index < |source|
      invariant start <= index
      invariant Scan(source, index, open, quote) == Scan(source, start, [], None)
    {
      var c := source[index];
      if quote.Some? {
        if c == '\\' {
          index := index + 1;
        } else if c == quote.value {
          quote := None;
        }
      } else if IsQuote(c) {
        quote := Some(c);
      } else if c == '>' && BesideEquals(source, index) {
      } else if c == '<' && !StartsTag(source, index) {
      } else if IsOpener(c) || c == '<' {
        open := open + [c];
      } else if IsCloser(c) {
        open := if open == [] then [] else open[..|open| - 1];
      } else if c == '>' {
        if open == [] {
          return source[start..index];
        }
        if open[|open| - 1] == '<' {
          open := open[..|open| - 1];
        }
      }
      index := index + 1;
    }
    attributes := source[start..];
  }

  // ---------------------------------------------------------------- the attribute texts

  /**
   Attribute text: plain characters, quoted strings, bracket groups, nested tags and
   the operators `<` and `>`.
   */
  datatype Text = Nil | Then(part: Part, next: Text)

  datatype Part =
    | Plain(c: char)
    | Quoted(quote: char, body: string)
    | Group(open: char, inside: Text, close: char)
    | Tag(inside: Text)
    | Operator(c: char)

  function Print(t: Text): string {
    match t
    case Nil => []
    case Then(part, next) => PrintPart(part) + Print(next)
  }

  function PrintPart(p: Part): string {
    match p
    case Plain(c) => [c]
    case Quoted(q, body) => [q] + body + [q]
    case Group(open, inside, close) => [open] + Print(inside) + [close]
    case Tag(inside) => ['<'] + Print(inside) + ['>']
    case Operator(c) => [c]
  }

  function Length(t: Text): nat {
    match t case Nil => 0 case Then(part, next) => Width(part) + Length(next)
  }

  function Width(p: Part): nat {
    match p
    case Plain(_) => 1
    case Quoted(_, body) => |body| + 2
    case Group(_, inside, _) => Length(inside) + 2
    case Tag(inside) => Length(inside) + 2
    case Operator(_) => 1
  }

  lemma {:induction false} LengthIsPrinted(t: Text)
    ensures Length(t) == |Print(t)|
    decreases t
  {
    match t
    case Nil =>
    case Then(part, next) =>
      WidthIsPrinted(part);
      LengthIsPrinted(next);
  }

  lemma {:induction false} WidthIsPrinted(p: Part)
    ensures Width(p) == |PrintPart(p)|
    decreases p
  {
    match p
    case Plain(_) =>
    case Quoted(_, _) =>
    case Group(_, inside, _) => LengthIsPrinted(inside);
    case Tag(inside) => LengthIsPrinted(inside);
    case Operator(_) =>
  }

  /** A string body: its own quote and backslash only behind a backslash. */
  predicate IsBody(body: string, quote: char) {
    if body == [] then true
    else if body[0] == '\\' then |body| > 1 && IsBody(body[2..], quote)
    else body[0] != quote && IsBody(body[1..], quote)
  }

  predicate IsPlain(c: char) {
    !IsQuote(c) && !IsOpener(c) && !IsCloser(c) && c != '<' && c != '>'
  }

  /** `source` has `inner` at `at + 1`, between `open` and `close`. */
  predicate Encloses(source: string, at: nat, open: char, inner: string, close: char)
    requires at + |inner| + 2 <= |source|
  {
    source[at] == open && source[at + 1..at + 1 + |inner|] == inner && source[at + 1 + |inner|] == close
  }

  /**
   `source` spells `p` at `at`: a tag opens before a name or a closing slash, and
   closes away from `=`; an operator `>` stands beside `=`, or, `grouped`, directly
   inside brackets; an operator `<` stands before neither.
   */
  predicate SpellsPart(source: string, at: nat, p: Part, grouped: bool)
    requires at + Width(p) <= |source|
    decreases p
  {
    match p
    case Plain(c) => source[at] == c && IsPlain(c)
    case Quoted(q, body) => IsQuote(q) && IsBody(body, q) && Encloses(source, at, q, body, q)
    case Group(open, inside, close) =>
      IsOpener(open) && IsCloser(close) && source[at] == open && source[at + 1 + Length(inside)] == close
      && Spells(source, at + 1, inside, true)
    case Tag(inside) =>
      source[at] == '<' && StartsTag(source, at) && source[at + 1 + Length(inside)] == '>'
      && !BesideEquals(source, at + 1 + Length(inside)) && Spells(source, at + 1, inside, false)
    case Operator(c) =>
      source[at] == c && (if c == '>' then BesideEquals(source, at) || grouped else c == '<' && !StartsTag(source, at))
  }

  predicate Spells(source: string, at: nat, t: Text, grouped: bool)
    requires at + Length(t) <= |source|
    decreases t
  {
    match t
    case Nil => true
    case Then(part, next) =>
      SpellsPart(source, at, part, grouped) && Spells(source, at + Width(part), next, grouped)
  }

  lemma {:induction false} SpellsItsPrint(source: string, at: nat, t: Text, grouped: bool)
    requires at + Length(t) <= |source| && Spells(source, at, t, grouped)
    ensures source[at..at + Length(t)] == Print(t)
    decreases t
  {
    match t
    case Nil =>
    case Then(part, next) =>
      var mid, end := at + Width(part), at + Length(t);
      assert source[at..mid] == PrintPart(part) by { PartSpellsItsPrint(source, at, part, grouped); }
      assert source[mid..end] == Print(next) by { SpellsItsPrint(source, mid, next, grouped); }
      Join(source, at, mid, end);
  }

  lemma {:induction false} PartSpellsItsPrint(source: string, at: nat, p: Part, grouped: bool)
    requires at + Width(p) <= |source| && SpellsPart(source, at, p, grouped)
    ensures source[at..at + Width(p)] == PrintPart(p)
    decreases p
  {
    hide StartsTag, BesideEquals, IsBody, IsQuote, IsOpener, IsCloser, IsPlain, Print, Length;
    match p
    case Plain(c) => Single(source, at);
    case Quoted(q, body) => Enclosed(source, at, q, body, q, |body| + 2);
    case Group(open, inside, close) =>
      SpellsItsPrint(source, at + 1, inside, true);
      LengthIsPrinted(inside);
      Enclosed(source, at, open, Print(inside), close, Length(inside) + 2);
    case Tag(inside) =>
      SpellsItsPrint(source, at + 1, inside, false);
      LengthIsPrinted(inside);
      Enclosed(source, at, '<', Print(inside), '>', Length(inside) + 2);
    case Operator(c) => Single(source, at);
  }

  lemma Single(source: string, at: nat)
    requires at < |source|
    ensures source[at..at + 1] == [source[at]]
  {
  }

  lemma Join(source: string, a: nat, b: nat, c: nat)
    requires a <= b <= c <= |source|
    ensures source[a..c] == source[a..b] + source[b..c]
  {
  }

  lemma Enclosed(source: string, at: nat, open: char, inner: string, close: char, width: nat)
    requires width == |inner| + 2 && at + width <= |source| && Encloses(source, at, open, inner, close)
    ensures source[at..at + width] == [open] + inner + [close]
  {
  }

  lemma {:induction false} ScanOverBody(source: string, at: nat, body: string, quote: char, open: seq<char>)
    requires IsQuote(quote) && IsBody(body, quote)
    requires at + |body| < |source| && source[at..at + |body|] == body && source[at + |body|] == quote
    ensures Scan(source, at, open, Some(quote)) == Scan(source, at + |body| + 1, open, None)
    decreases |body|
  {
    if body != [] {
      assert source[at] == body[0];
      var n := if body[0] == '\\' then 2 else 1;
      assert source[at + n..at + |body|] == body[n..];
      ScanOverBody(source, at + n, body[n..], quote, open);
    }
  }

  /** Spelled text leaves the stack as it was, however deep it nests. */
  lemma {:induction false} ScanOver(source: string, at: nat, t: Text, grouped: bool, open: seq<char>)
    requires at + Length(t) <= |source| && Spells(source, at, t, grouped)
    requires grouped ==> open != [] && IsOpener(open[|open| - 1])
    ensures Scan(source, at, open, None) == Scan(source, at + Length(t), open, None)
    decreases t, 0
  {
    hide Scan, Turn, SpellsPart;
    match t
    case Nil =>
    case Then(part, next) =>
      ScanOverPart(source, at, part, grouped, open);
      ScanOver(source, at + Width(part), next, grouped, open);
  }

  lemma {:induction false} ScanOverPart(source: string, at: nat, p: Part, grouped: bool, open: seq<char>)
    requires at + Width(p) <= |source| && SpellsPart(source, at, p, grouped)
    requires grouped ==> open != [] && IsOpener(open[|open| - 1])
    ensures Scan(source, at, open, None) == Scan(source, at + Width(p), open, None)
    decreases p, 0
  {
    hide Scan, Turn, StartsTag, BesideEquals, IsBody, Print, PrintPart, Spells, Length;
    match p
    case Plain(c) => ScanOverPlain(source, at, open);
    case Quoted(q, body) => ScanOverQuoted(source, at, body, q, open);
    case Group(opener, inside, close) => ScanOverGroup(source, at, opener, inside, close, grouped, open);
    case Tag(inside) => ScanOverTag(source, at, inside, grouped, open);
    case Operator(c) => ScanOverOperator(source, at, c, grouped, open);
  }

  lemma GroupSpells(source: string, at: nat, opener: char, inside: Text, close: char, grouped: bool)
    requires at + Width(Group(opener, inside, close)) <= |source|
    requires SpellsPart(source, at, Group(opener, inside, close), grouped)
    ensures at + Length(inside) + 2 <= |source| && Spells(source, at + 1, inside, true)
    ensures source[at] == opener && IsOpener(opener) && IsCloser(source[at + 1 + Length(inside)])
  {
    hide IsOpener, IsCloser, Spells, Length;
  }

  lemma {:induction false} ScanOverGroup(source: string, at: nat, opener: char, inside: Text, close: char,
                                         grouped: bool, open: seq<char>)
    requires at + Width(Group(opener, inside, close)) <= |source|
    requires SpellsPart(source, at, Group(opener, inside, close), grouped)
    ensures Scan(source, at, open, None) == Scan(source, at + Length(inside) + 2, open, None)
    decreases inside, 1
  {
    hide Scan, Turn, StartsTag, BesideEquals, SpellsPart, Spells, Width, Length, IsOpener, IsCloser;
    GroupSpells(source, at, opener, inside, close, grouped);
    ScanOver(source, at + 1, inside, true, open + [opener]);
    ScanOverBrackets(source, at, at + 1 + Length(inside), open);
  }

  lemma TagSpells(source: string, at: nat, inside: Text, grouped: bool)
    requires at + Width(Tag(inside)) <= |source| && SpellsPart(source, at, Tag(inside), grouped)
    ensures at + Length(inside) + 2 <= |source| && Spells(source, at + 1, inside, false)
    ensures var end := at + 1 + Length(inside);
      source[at] == '<' && StartsTag(source, at) && source[end] == '>' && !BesideEquals(source, end)
  {
    hide StartsTag, BesideEquals, Spells, Length;
  }

  lemma {:induction false} ScanOverTag(source: string, at: nat, inside: Text, grouped: bool, open: seq<char>)
    requires at + Width(Tag(inside)) <= |source| && SpellsPart(source, at, Tag(inside), grouped)
    ensures Scan(source, at, open, None) == Scan(source, at + Length(inside) + 2, open, None)
    decreases inside, 1
  {
    hide Scan, Turn, StartsTag, BesideEquals, SpellsPart, Spells, Width, Length, IsOpener;
    TagSpells(source, at, inside, grouped);
    ScanOver(source, at + 1, inside, false, open + ['<']);
    ScanOverAngles(source, at, at + 1 + Length(inside), open);
  }

  lemma ScanOverPlain(source: string, at: nat, open: seq<char>)
    requires at < |source| && IsPlain(source[at])
    ensures Scan(source, at, open, None) == Scan(source, at + 1, open, None)
  {
    assert Turn(source, at, open) == Some(open);
  }

  lemma ScanOverOperator(source: string, at: nat, c: char, grouped: bool, open: seq<char>)
    requires at < |source| && SpellsPart(source, at, Operator(c), grouped)
    requires grouped ==> open != [] && IsOpener(open[|open| - 1])
    ensures Scan(source, at, open, None) == Scan(source, at + 1, open, None)
  {
    assert Turn(source, at, open) == Some(open);
  }

  lemma ScanOverQuoted(source: string, at: nat, body: string, quote: char, open: seq<char>)
    requires at + |body| + 2 <= |source| && IsQuote(quote) && IsBody(body, quote)
    requires Encloses(source, at, quote, body, quote)
    ensures Scan(source, at, open, None) == Scan(source, at + |body| + 2, open, None)
  {
    ScanOverBody(source, at + 1, body, quote, open);
  }

  /** The closing delimiter pops exactly what the opening one pushed. */
  lemma ScanOverBrackets(source: string, at: nat, end: nat, open: seq<char>)
    requires at < end < |source| && IsOpener(source[at]) && IsCloser(source[end])
    requires Scan(source, at + 1, open + [source[at]], None) == Scan(source, end, open + [source[at]], None)
    ensures Scan(source, at, open, None) == Scan(source, end + 1, open, None)
  {
    hide BesideEquals, StartsTag;
  }

  lemma ScanOverAngles(source: string, at: nat, end: nat, open: seq<char>)
    requires at < end < |source| && source[at] == '<' && StartsTag(source, at)
    requires source[end] == '>' && !BesideEquals(source, end)
    requires Scan(source, at + 1, open + ['<'], None) == Scan(source, end, open + ['<'], None)
    ensures Scan(source, at, open, None) == Scan(source, end + 1, open, None)
  {
    hide BesideEquals, StartsTag;
  }

  /** Up to a closing `>` away from `=`, the reader returns exactly the attribute text. */
  lemma ReadsExactlyTheText(source: string, start: nat, t: Text)
    requires start + Length(t) < |source| && Spells(source, start, t, false)
    requires source[start + Length(t)] == '>' && !BesideEquals(source, start + Length(t))
    ensures source[start..Scan(source, start, [], None)] == Print(t)
  {
    hide Spells, Print, Length;
    ScanOver(source, start, t, false, []);
    SpellsItsPrint(source, start, t, false);
  }

  /** Attributes that are never closed are returned whole, to the end of the source. */
  lemma ReadsToTheEnd(source: string, start: nat, t: Text)
    requires start + Length(t) == |source| && Spells(source, start, t, false)
    ensures source[start..Scan(source, start, [], None)] == source[start..] == Print(t)
  {
    hide Spells, Print, Length;
    ScanOver(source, start, t, false, []);
    SpellsItsPrint(source, start, t, false);
    assert source[start..|source|] == source[start..];
  }

  /** A closer with nothing open is passed over like any other character. */
  lemma ReadsOverAStrayCloser(source: string, start: nat, t: Text, next: Text)
    requires var at := start + Length(t);
      && at + 1 + Length(next) < |source| && IsCloser(source[at])
      && Spells(source, start, t, false) && Spells(source, at + 1, next, false)
    requires var end := start + Length(t) + 1 + Length(next);
      source[end] == '>' && !BesideEquals(source, end)
    ensures Scan(source, start, [], None) == start + Length(t) + 1 + Length(next)
  {
    hide Spells, Length;
    var at := start + Length(t);
    ScanOver(source, start, t, false, []);
    StrayCloser(source, at);
    ScanOver(source, at + 1, next, false, []);
  }

  lemma StrayCloser(source: string, at: nat)
    requires at < |source| && IsCloser(source[at])
    ensures Scan(source, at, [], None) == Scan(source, at + 1, [], None)
  {
  }

  // ---------------------------------------------------------------- what this is for

  /** `opener` and `closer` come as a pair. */
  predicate IsPair(opener: char, closer: char) {
    (opener == '{' && closer == '}') || (opener == '(' && closer == ')') || (opener == '[' && closer == ']')
  }

  /** A `>` in a string, in any quotes, or directly inside brackets of any kind, does not end the attributes. */
  lemma GreaterThanInside(quote: char, body: string, opener: char, closer: char)
    requires quote == '"' || quote == '\'' || quote == '`'
    requires IsPair(opener, closer) && forall k | 0 <= k < |body| :: body[k] != quote && body[k] != '\\'
    ensures Scan([quote] + body + [quote] + ">", 0, [], None) == |body| + 2
    ensures Scan([opener, '>', closer, '>'], 0, [], None) == 3
  {
    GreaterThanInString(quote, body);
    GreaterThanInBrackets(opener, closer);
  }

  lemma GreaterThanInString(quote: char, body: string)
    requires IsQuote(quote) && forall k | 0 <= k < |body| :: body[k] != quote && body[k] != '\\'
    ensures Scan([quote] + body + [quote] + ">", 0, [], None) == |body| + 2
  {
    hide IsBody, Scan, IsQuote, Encloses, BesideEquals;
    BodyIsBody(body, quote);
    StringThenEnd(quote, body);
    StringIsRead([quote] + body + [quote] + ">", quote, body);
  }

  lemma StringIsRead(source: string, quote: char, body: string)
    requires IsQuote(quote) && IsBody(body, quote) && |source| == |body| + 3
    requires Encloses(source, 0, quote, body, quote)
    requires source[|body| + 2] == '>' && !BesideEquals(source, |body| + 2)
    ensures Scan(source, 0, [], None) == |body| + 2
  {
    hide IsBody, Scan, IsQuote, Encloses, BesideEquals;
    ScanOverQuoted(source, 0, body, quote, []);
    EndsHere(source, |body| + 2);
  }

  lemma StringThenEnd(quote: char, body: string)
    requires IsQuote(quote)
    ensures var source := [quote] + body + [quote] + ">";
      && |source| == |body| + 3 && Encloses(source, 0, quote, body, quote)
      && source[|body| + 2] == '>' && !BesideEquals(source, |body| + 2)
  {
  }

  /** A `>` that nothing encloses and no `=` stands beside ends the attributes. */
  lemma EndsHere(source: string, at: nat)
    requires at < |source| && source[at] == '>' && !BesideEquals(source, at)
    ensures Scan(source, at, [], None) == at
  {
  }

  lemma {:induction false} BodyIsBody(body: string, quote: char)
    requires forall k | 0 <= k < |body| :: body[k] != quote && body[k] != '\\'
    ensures IsBody(body, quote)
  {
    if body != "" { BodyIsBody(body[1..], quote); }
  }

  lemma GreaterThanInBrackets(opener: char, closer: char)
    requires IsPair(opener, closer)
    ensures Scan([opener, '>', closer, '>'], 0, [], None) == 3
  {
    hide Scan;
    var source, inside := [opener, '>', closer, '>'], Then(Operator('>'), Nil);
    assert Length(inside) == 1 && Spells(source, 1, inside, true);
    ScanOverGroup(source, 0, opener, inside, closer, false, []);
    EndsHere(source, 3);
  }

  /** A quote behind a backslash does not end its string, an arrow's `>` nothing, and a tag inside has its own. */
  lemma GreaterThanElsewhere(quote: char, name: char)
    requires quote == '"' || quote == '\'' || quote == '`'
    requires 'a' <= name <= 'z' || 'A' <= name <= 'Z' || name == '_' || name == '$' || name == '/'
    ensures Scan([quote, '\\', quote, '>', quote, '>'], 0, [], None) == 5
    ensures Scan("=>a>", 0, [], None) == 3 && Scan("a>=b>", 0, [], None) == 4
    ensures Scan(['<', name, '>', '>'], 0, [], None) == 3 && Scan("<>>", 0, [], None) == 2
    ensures Scan("< a>", 0, [], None) == 3
  {
    EscapedQuote(quote);
    TagWithin(name);
    ArrowsAndOrders();
  }

  lemma EscapedQuote(quote: char)
    requires quote == '"' || quote == '\'' || quote == '`'
    ensures Scan([quote, '\\', quote, '>', quote, '>'], 0, [], None) == 5
  {
    hide Scan;
    var source := [quote, '\\', quote, '>', quote, '>'];
    var body := ['\\', quote, '>'];
    assert body[2..] == ['>'] && ['>'][1..] == "" && IsBody(['>'], quote);
    assert IsBody(body, quote) && source[1..4] == body;
    ScanOverQuoted(source, 0, body, quote, []);
    EndsHere(source, 5);
  }

  lemma TagWithin(name: char)
    requires 'a' <= name <= 'z' || 'A' <= name <= 'Z' || name == '_' || name == '$' || name == '/'
    ensures Scan(['<', name, '>', '>'], 0, [], None) == 3 && Scan("<>>", 0, [], None) == 2
  {
    hide Scan;
    var source, inside := ['<', name, '>', '>'], Then(Plain(name), Nil);
    assert Length(inside) == 1 && Length(Nil) == 0 && Spells(source, 1, inside, false);
    ScanOverTag(source, 0, inside, false, []);
    EndsHere(source, 3);
    ScanOverTag("<>>", 0, Nil, false, []);
    EndsHere("<>>", 2);
  }

  lemma ArrowsAndOrders()
    ensures Scan("=>a>", 0, [], None) == 3 && Scan("a>=b>", 0, [], None) == 4 && Scan("< a>", 0, [], None) == 3
  {
    hide Scan, Turn;
    ScanOverPlain("=>a>", 0, []);
    ScanOverOperator("=>a>", 1, '>', false, []);
    ScanOverPlain("=>a>", 2, []);
    EndsHere("=>a>", 3);
    ScanOverPlain("a>=b>", 0, []);
    ScanOverOperator("a>=b>", 1, '>', false, []);
    ScanOverPlain("a>=b>", 2, []);
    ScanOverPlain("a>=b>", 3, []);
    EndsHere("a>=b>", 4);
    ScanOverOperator("< a>", 0, '<', false, []);
    ScanOverPlain("< a>", 1, []);
    ScanOverPlain("< a>", 2, []);
    EndsHere("< a>", 3);
  }
}
