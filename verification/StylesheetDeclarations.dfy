/**
 The round trip of scripts/check-ui-stylesheets.ts in its own terms: declarations in
 nested rules, spaced at will, read as the list of those declarations.
 */
module StylesheetDeclarations {
  import opened Prelude
  import opened StylesheetText
  import opened StylesheetReader
  import opened StylesheetProperties

  datatype Styles = Done | And(style: Style, next: Styles)

  /** A declaration and a rule with the white space around their parts, or a statement that declares nothing. */
  datatype Style =
    | Property(lead: string, property: string, mid: string, pre: string, written: string, value: string, post: string)
    | Bare(text: string)
    | Rule(lead: string, header: string, rest: string, body: Styles, tail: string)

  predicate WellWritten(s: Styles) {
    match s case Done => true case And(style, next) => WellWrittenStyle(style) && WellWritten(next)
  }

  predicate WellWrittenStyle(s: Style) {
    match s
    case Property(lead, property, mid, pre, written, value, post) =>
      Blank(lead) && Blank(mid) && Blank(pre) && Blank(post)
      && IsProperty(property) && Normalised(value) && IsSpacing(written, value) && Plain(written)
    case Bare(text) => Plain(text) && NamesNothing(text)
    case Rule(lead, header, rest, body, tail) =>
      Blank(lead) && Blank(rest) && Trimmed(header) && Plain(header) && Plain(tail) && WellWritten(body)
  }

  predicate NoColon(s: string) {
    forall i | 0 <= i < |s| :: s[i] != ':'
  }

  /** It has no colon, or what stands before its first one is no property name. */
  predicate NamesNothing(text: string) {
    forall k: nat | k < |text| && text[k] == ':' && NoColon(text[..k]) :: !IsProperty(Trim(text[..k]))
  }

  /** The text of a declaration before its semicolon. */
  function PairText(lead: string, property: string, mid: string, pre: string, written: string, post: string): string {
    lead + property + mid + [':'] + (pre + written + post)
  }

  function SheetOf(s: Styles): Sheet {
    match s case Done => End case And(style, next) => Then(ItemOf(style), SheetOf(next))
  }

  function ItemOf(s: Style): Item {
    match s
    case Property(lead, property, mid, pre, written, _, post) =>
      Statement(PairText(lead, property, mid, pre, written, post))
    case Bare(text) => Statement(text)
    case Rule(lead, header, rest, body, tail) => Block(lead + header + rest, SheetOf(body), tail)
  }

  /**
   What the stylesheet declares: every declaration inside a rule once, in order, with
   the line its property starts on and the headers around it. `at` is where it starts
   in the source; `flags` says of each rule, in opening order, whether a marker exempts
   it, and a declaration is exempt when a rule around it is.
   */
  function Declarations(s: Styles, source: string, at: nat, path: seq<string>, exempt: bool, flags: seq<bool>)
    : seq<Declaration>
    requires |flags| == Blocks(SheetOf(s))
  {
    match s
    case Done => []
    case And(style, next) =>
      var n := BlocksIn(ItemOf(style));
      DeclarationsOf(style, source, at, path, exempt, flags[..n])
      + Declarations(next, source, at + Width(ItemOf(style)), path, exempt, flags[n..])
  }

  function DeclarationsOf(s: Style, source: string, at: nat, path: seq<string>, exempt: bool, flags: seq<bool>)
    : seq<Declaration>
    requires |flags| == BlocksIn(ItemOf(s))
  {
    match s
    case Property(lead, property, _, _, _, value, _) =>
      if path == [] then [] else [Declaration(property, value, LineOf(source, at + |lead|), exempt, path)]
    case Bare(_) => []
    case Rule(lead, header, rest, body, _) =>
      Declarations(body, source, at + |lead + header + rest| + 1, path + [header], exempt || flags[0], flags[1..])
  }

  // ---------------------------------------------------------------- its text is well formed

  lemma BlankIsPlain(s: string)
    requires Blank(s)
    ensures Plain(s)
  {
  }

  lemma PropertyIsPlain(s: string)
    requires IsProperty(s)
    ensures Plain(s)
  {
    var name := if "--" <= s then s[2..] else s;
    if "--" <= s {
      assert s == s[..2] + name && s[..2] == "--";
      assert s[0] == '-' && s[1] == '-';
      assert forall i | 2 <= i < |s| :: s[i] == name[i - 2];
    }
  }

  lemma PlainJoins(a: string, b: string)
    requires Plain(a) && Plain(b)
    ensures Plain(a + b)
  {
  }

  lemma PairIsPlain(lead: string, property: string, mid: string, pre: string, written: string, post: string)
    requires Blank(lead) && Blank(mid) && Blank(pre) && Blank(post) && IsProperty(property) && Plain(written)
    ensures Plain(PairText(lead, property, mid, pre, written, post))
  {
    BlankIsPlain(lead);
    BlankIsPlain(mid);
    BlankIsPlain(pre);
    BlankIsPlain(post);
    PropertyIsPlain(property);
    PlainJoins(lead, property);
    PlainJoins(lead + property, mid);
    PlainJoins(lead + property + mid, [':']);
    PlainJoins(pre, written);
    PlainJoins(pre + written, post);
    PlainJoins(lead + property + mid + [':'], pre + written + post);
  }

  lemma {:induction false} WrittenIsWellFormed(s: Styles)
    requires WellWritten(s)
    ensures WellFormed(SheetOf(s))
    decreases s
  {
    match s
    case Done =>
    case And(style, next) =>
      StyleIsWellFormed(style);
      WrittenIsWellFormed(next);
  }

  lemma {:induction false} StyleIsWellFormed(s: Style)
    requires WellWrittenStyle(s)
    ensures WellFormedItem(ItemOf(s))
    decreases s
  {
    match s
    case Property(lead, property, mid, pre, written, _, post) => PairIsPlain(lead, property, mid, pre, written, post);
    case Bare(_) =>
    case Rule(lead, header, rest, body, tail) =>
      BlankIsPlain(lead);
      BlankIsPlain(rest);
      PlainJoins(lead, header);
      PlainJoins(lead + header, rest);
      WrittenIsWellFormed(body);
  }

  // ---------------------------------------------------------------- and declares what it holds

  lemma {:induction false} DeclaredJoins(text: string, a: seq<Raw>, b: seq<Raw>)
    ensures AllDeclared(text, a + b) == AllDeclared(text, a) + AllDeclared(text, b)
  {
    if b == [] {
      assert a + b == a;
    } else {
      var front, last := b[..|b| - 1], b[|b| - 1];
      assert b == front + [last] && a + b == a + front + [last];
      DeclaredJoins(text, a, front);
      DeclareOneMore(text, front, last);
      DeclareOneMore(text, a + front, last);
    }
  }

  /** Blanking comments keeps the line of every offset. */
  ghost predicate SameLines(text: string, source: string) {
    forall n: nat :: LineOf(text, n) == LineOf(source, n)
  }

  /** The statements declare just that. */
  ghost predicate ReadAs(text: string, held: seq<Raw>, declared: seq<Declaration>) {
    AllDeclared(text, held) == declared
  }

  lemma OneReads(text: string, raw: Raw, declared: seq<Declaration>)
    requires Says(text, raw, declared)
    ensures ReadAs(text, [raw], declared)
  {
    DeclareOneMore(text, [], raw);
    assert [] + [raw] == [raw];
  }

  lemma HeldJoins(text: string, a: seq<Raw>, b: seq<Raw>, x: seq<Declaration>, y: seq<Declaration>)
    requires ReadAs(text, a, x) && ReadAs(text, b, y)
    ensures ReadAs(text, a + b, x + y)
  {
    DeclaredJoins(text, a, b);
  }

  /** An item and what follows it declare, one after the other, what they declare by themselves. */
  lemma ItemThenReads(text: string, item: Item, next: Sheet, at: nat, path: seq<string>, exempt: bool, flags: seq<bool>,
                      a: seq<Raw>, b: seq<Raw>, x: seq<Declaration>, y: seq<Declaration>)
    requires |flags| == BlocksIn(item) + Blocks(next)
    requires a == MeaningOf(item, at, path, exempt, flags[..BlocksIn(item)]) && ReadAs(text, a, x)
    requires b == Meaning(next, at + Width(item), path, exempt, flags[BlocksIn(item)..]) && ReadAs(text, b, y)
    ensures ReadAs(text, Meaning(Then(item, next), at, path, exempt, flags), x + y)
  {
    hide ReadAs, Width, MeaningOf;
    HeldJoins(text, a, b, x, y);
    assert Meaning(Then(item, next), at, path, exempt, flags) == a + b;
  }

  /** The statements of a stylesheet, read one by one, declare its declarations. */
  lemma {:induction false} StylesDeclare(s: Styles, text: string, source: string, at: nat, path: seq<string>,
                                         trimmed: seq<string>, exempt: bool, flags: seq<bool>)
    requires WellWritten(s) && SameLines(text, source) && trimmed == TrimAll(path) && |flags| == Blocks(SheetOf(s))
    ensures ReadAs(text, Meaning(SheetOf(s), at, path, exempt, flags),
                   Declarations(s, source, at, trimmed, exempt, flags))
    decreases s
  {
    hide SameLines, StylesheetReader.Declared, WellWrittenStyle, DeclarationsOf, MeaningOf;
    match s
    case Done =>
    case And(style, next) =>
      var item, after := ItemOf(style), SheetOf(next);
      var n, end := BlocksIn(item), at + Width(item);
      StyleDeclares(style, text, source, at, path, trimmed, exempt, flags[..n]);
      StylesDeclare(next, text, source, end, path, trimmed, exempt, flags[n..]);
      ItemThenReads(text, item, after, at, path, exempt, flags,
                    MeaningOf(item, at, path, exempt, flags[..n]), Meaning(after, end, path, exempt, flags[n..]),
                    DeclarationsOf(style, source, at, trimmed, exempt, flags[..n]),
                    Declarations(next, source, end, trimmed, exempt, flags[n..]));
  }

  lemma {:induction false} StyleDeclares(s: Style, text: string, source: string, at: nat, path: seq<string>,
                                         trimmed: seq<string>, exempt: bool, flags: seq<bool>)
    requires WellWrittenStyle(s) && SameLines(text, source) && trimmed == TrimAll(path) && |flags| == BlocksIn(ItemOf(s))
    ensures ReadAs(text, MeaningOf(ItemOf(s), at, path, exempt, flags),
                   DeclarationsOf(s, source, at, trimmed, exempt, flags))
    decreases s
  {
    hide ReadAs, SameLines, WellWritten, Meaning, Declarations, TrimAll;
    match s
    case Property(lead, name, mid, pre, written, _, post) =>
      PropertyReads(s, PairText(lead, name, mid, pre, written, post), text, source, at, path, trimmed, exempt);
    case Bare(body) =>
      BareReadsNothing(body);
      DeclaresNothing(text, Raw(at, body, exempt, path));
      OneReads(text, Raw(at, body, exempt, path), []);
    case Rule(lead, header, rest, body, _) =>
      HeaderIsTrimmed(path, lead, header, rest);
      StylesDeclare(body, text, source, at + |lead + header + rest| + 1, path + [lead + header + rest],
                    trimmed + [header], exempt || flags[0], flags[1..]);
  }

  lemma HeaderIsTrimmed(path: seq<string>, lead: string, header: string, rest: string)
    requires Blank(lead) && Blank(rest) && Trimmed(header)
    ensures TrimAll(path + [lead + header + rest]) == TrimAll(path) + [header]
  {
    TrimUndoesPadding(lead, header, rest);
    TrimAllStack(path, lead + header + rest);
  }

  lemma PairReads(s: Style)
    requires s.Property? && WellWrittenStyle(s)
    ensures var segment := PairText(s.lead, s.property, s.mid, s.pre, s.written, s.post);
      Pairs(segment, StylesheetReader.Pair(s.property, s.value), |s.lead|)
  {
    SegmentReads(s.lead, s.property, s.mid, s.pre, s.written, s.value, s.post);
  }

  lemma PropertyReads(s: Style, segment: string, text: string, source: string, at: nat,
                      path: seq<string>, trimmed: seq<string>, exempt: bool)
    requires s.Property? && WellWrittenStyle(s) && SameLines(text, source) && trimmed == TrimAll(path)
    requires segment == PairText(s.lead, s.property, s.mid, s.pre, s.written, s.post)
    ensures ReadAs(text, [Raw(at, segment, exempt, path)],
                   if path == [] then []
                   else [Declaration(s.property, s.value, LineOf(source, at + |s.lead|), exempt, trimmed)])
  {
    hide Says, ReadAs, Pairs, ReadSegment, TrimAll, PairText;
    var raw := Raw(at, segment, exempt, path);
    PairReads(s);
    if path == [] {
      DeclaresNothing(text, raw);
      OneReads(text, raw, []);
    } else {
      DeclaresPair(text, raw, StylesheetReader.Pair(s.property, s.value), |s.lead|);
      assert LineOf(text, at + |s.lead|) == LineOf(source, at + |s.lead|);
      OneReads(text, raw, [Declaration(s.property, s.value, LineOf(source, at + |s.lead|), exempt, trimmed)]);
    }
  }

  lemma BareReadsNothing(body: string)
    requires NamesNothing(body)
    ensures ReadSegment(body) == None
  {
    var colon := StylesheetReader.IndexOf(body, ':');
    if colon.Some? {
      assert NoColon(body[..colon.value]);
    }
  }

  // ---------------------------------------------------------------- the round trip

  /**
   What `ReadDeclarations` returns for a source that is, its comments blanked, such a
   stylesheet: its declarations, in order, with their lines in the source, each exempt
   when a rule around it took a marker.
   */
  lemma ReadsItsDeclarations(source: string, marks: string -> bool, s: Styles, end: string)
    requires WellWritten(s) && Plain(end)
    requires StripComments(source, marks).text == Print(SheetOf(s)) + end
    ensures var stripped := StripComments(source, marks);
      Read(stripped.text, stripped.markers)
      == Declarations(s, source, 0, [], false, Takes(Opens(SheetOf(s), 0), stripped.markers))
  {
    var stripped := StripComments(source, marks);
    var sheet := SheetOf(s);
    BlankedLines(source, marks);
    WrittenIsWellFormed(s);
    ReadUndoesPrint(sheet, end, stripped.markers);
    StylesDeclare(s, stripped.text, source, 0, [], [], false, Takes(Opens(sheet, 0), stripped.markers));
  }

  lemma BlankedLines(source: string, marks: string -> bool)
    ensures SameLines(StripComments(source, marks).text, source)
  {
    var text := StripComments(source, marks).text;
    StripKeepsLines(source, marks, |source|);
    assert text[..|source|] == text && source[..|source|] == source;
    forall n: nat
      ensures LineOf(text, n) == LineOf(source, n)
    {
      if n <= |source| { StripKeepsLines(source, marks, n); }
    }
  }
}
