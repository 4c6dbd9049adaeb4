/** Reading undoes printing for the stylesheet reader, block by block (scripts/check-ui-stylesheets.ts). */
module StylesheetProperties {
  import opened Prelude
  import opened StylesheetText
  import opened StylesheetReader

  /** A comment-free stylesheet: statements and nested blocks, each with the text before its delimiter. */
  datatype Sheet = End | Then(item: Item, next: Sheet)

  datatype Item = Statement(text: string) | Block(header: string, body: Sheet, tail: string)

  predicate Plain(s: string) {
    forall i | 0 <= i < |s| :: s[i] != '{' && s[i] != '}' && s[i] != ';'
  }

  predicate WellFormed(s: Sheet) {
    match s case End => true case Then(item, next) => WellFormedItem(item) && WellFormed(next)
  }

  predicate WellFormedItem(i: Item) {
    match i
    case Statement(text) => Plain(text)
    case Block(header, body, tail) => Plain(header) && WellFormed(body) && Plain(tail)
  }

  function Print(s: Sheet): string {
    match s case End => [] case Then(item, next) => PrintItem(item) + Print(next)
  }

  function PrintItem(i: Item): string {
    match i
    case Statement(text) => text + [';']
    case Block(header, body, tail) => header + ['{'] + Print(body) + tail + ['}']
  }

  function Length(s: Sheet): nat {
    match s case End => 0 case Then(item, next) => Width(item) + Length(next)
  }

  function Width(i: Item): nat {
    match i
    case Statement(text) => |text| + 1
    case Block(header, body, tail) => |header| + 1 + Length(body) + |tail| + 1
  }

  lemma {:induction false} LengthIsPrinted(s: Sheet)
    ensures Length(s) == |Print(s)|
    decreases s
  {
    match s
    case End =>
    case Then(item, next) =>
      WidthIsPrinted(item);
      LengthIsPrinted(next);
  }

  lemma {:induction false} WidthIsPrinted(i: Item)
    ensures Width(i) == |PrintItem(i)|
    decreases i
  {
    match i
    case Statement(_) =>
    case Block(_, body, _) => LengthIsPrinted(body);
  }

  function Blocks(s: Sheet): nat {
    match s case End => 0 case Then(item, next) => BlocksIn(item) + Blocks(next)
  }

  function BlocksIn(i: Item): nat {
    match i case Statement(_) => 0 case Block(_, body, _) => 1 + Blocks(body)
  }

  /** The offsets at which blocks open, in order, for a sheet printed at offset `at`. */
  function Opens(s: Sheet, at: nat): (opens: seq<nat>)
    ensures |opens| == Blocks(s)
  {
    match s case End => [] case Then(item, next) => OpensIn(item, at) + Opens(next, at + Width(item))
  }

  function OpensIn(i: Item, at: nat): (opens: seq<nat>)
    ensures |opens| == BlocksIn(i)
  {
    match i
    case Statement(_) => []
    case Block(header, body, _) => [at + |header|] + Opens(body, at + |header| + 1)
  }

  /**
   What a sheet printed at offset `at` holds: every statement once, in order, where
   it starts, with the headers of the blocks around it. `flags` says of each block,
   in opening order, whether a marker exempts it; a statement is exempt when a block
   around it is.
   */
  function Meaning(s: Sheet, at: nat, path: seq<string>, exempt: bool, flags: seq<bool>): seq<Raw>
    requires |flags| == Blocks(s)
  {
    match s
    case End => []
    case Then(item, next) =>
      MeaningOf(item, at, path, exempt, flags[..BlocksIn(item)])
      + Meaning(next, at + Width(item), path, exempt, flags[BlocksIn(item)..])
  }

  function MeaningOf(i: Item, at: nat, path: seq<string>, exempt: bool, flags: seq<bool>): seq<Raw>
    requires |flags| == BlocksIn(i)
  {
    match i
    case Statement(text) => [Raw(at, text, exempt, path)]
    case Block(header, body, _) => Meaning(body, at + |header| + 1, path + [header], exempt || flags[0], flags[1..])
  }

  // ---------------------------------------------------------------- the marker queue

  /** The reader's queue: an opening takes the first marker that is already behind it. */
  function Takes(opens: seq<nat>, markers: seq<nat>): (flags: seq<bool>)
    ensures |flags| == |opens|
  {
    if opens == [] then [] else [Taken(markers, opens[0])] + Takes(opens[1..], Behind(markers, opens[0]))
  }

  function Left(opens: seq<nat>, markers: seq<nat>): seq<nat> {
    if opens == [] then markers else Left(opens[1..], Behind(markers, opens[0]))
  }

  lemma TakesCons(brace: nat, rest: seq<nat>, markers: seq<nat>)
    ensures Left([brace] + rest, markers) == Left(rest, Behind(markers, brace))
    ensures Takes([brace] + rest, markers) == [Taken(markers, brace)] + Takes(rest, Behind(markers, brace))
  {
  }

  lemma {:induction false} TakesSplits(a: seq<nat>, b: seq<nat>, markers: seq<nat>)
    ensures Takes(a + b, markers) == Takes(a, markers) + Takes(b, Left(a, markers))
    ensures Left(a + b, markers) == Left(b, Left(a, markers))
  {
    if a == [] {
      assert a + b == b;
    } else {
      var o, rest := a[0], a[1..];
      var behind := Behind(markers, o);
      assert a == [o] + rest && a + b == [o] + (rest + b);
      TakesCons(o, rest, markers);
      TakesCons(o, rest + b, markers);
      TakesSplits(rest, b, behind);
      ConsJoins(Taken(markers, o), Takes(rest, behind), Takes(b, Left(rest, behind)));
    }
  }

  lemma ConsJoins(x: bool, a: seq<bool>, b: seq<bool>)
    ensures [x] + (a + b) == [x] + a + b
  {
  }

  // ---------------------------------------------------------------- the machine reads the tree

  /** Depths of exempt blocks: strictly increasing, none deeper than the nesting. */
  ghost predicate ValidDepths(m: Machine) {
    && Increasing(m.exemptDepths)
    && forall d | d in m.exemptDepths :: 0 < d <= |m.headers|
  }

  lemma {:induction false} RunOverPlain(text: string, m: Machine, from: nat, to: nat)
    requires m.segmentStart <= from <= to <= |text| && Plain(text[from..to])
    ensures Run(text, m, from, to) == m
    decreases |text| - from
  {
    if from < to {
      assert text[from..to][0] == text[from];
      assert text[from + 1..to] == text[from..to][1..];
      RunOverPlain(text, m, from + 1, to);
    }
  }

  /** `text` has `part` at `at`. */
  predicate Shows(text: string, at: nat, part: string) {
    at + |part| <= |text| && text[at..at + |part|] == part
  }

  lemma ShowsBoth(text: string, at: nat, a: string, b: string)
    requires Shows(text, at, a + b)
    ensures Shows(text, at, a) && Shows(text, at + |a|, b)
  {
    var s := text[at..at + |a + b|];
    assert text[at..at + |a|] == s[..|a|] && text[at + |a|..at + |a| + |b|] == s[|a|..];
  }

  /** Reading on from `m` comes by `n`, at the start of the segment `n` is about to read. */
  ghost predicate Passes(text: string, m: Machine, n: Machine) {
    && m.segmentStart <= n.segmentStart <= |text|
    && forall to | n.segmentStart <= to <= |text| :: Run(text, m, m.segmentStart, to) == Run(text, n, n.segmentStart, to)
  }

  lemma PassesOn(text: string, a: Machine, b: Machine, c: Machine)
    requires Passes(text, a, b) && Passes(text, b, c)
    ensures Passes(text, a, c)
  {
  }

  lemma DelimiterStarts(text: string, m: Machine, at: nat)
    requires m.segmentStart <= at < |text| && text[at] in {'{', '}', ';'}
    ensures Step(text, m, at).segmentStart == at + 1
  {
  }

  /** Plain text does nothing; the delimiter behind it does one step. */
  lemma PassesDelimiter(text: string, m: Machine, plain: string, delimiter: char)
    requires Plain(plain) && delimiter in {'{', '}', ';'} && Shows(text, m.segmentStart, plain + [delimiter])
    ensures var at := m.segmentStart + |plain|;
      && text[m.segmentStart..at] == plain && text[at] == delimiter
      && Passes(text, m, Step(text, m, at))
  {
    hide Step;
    var at := m.segmentStart + |plain|;
    ShowsBoth(text, m.segmentStart, plain, [delimiter]);
    assert text[at..at + 1] == [delimiter];
    RunOverPlain(text, m, m.segmentStart, at);
    DelimiterStarts(text, m, at);
    forall to | at + 1 <= to <= |text|
      ensures Run(text, m, m.segmentStart, to) == Run(text, Step(text, m, at), at + 1, to)
    {
      RunSplits(text, m, m.segmentStart, at, to);
    }
  }

  function Entered(header: string, m: Machine): Machine {
    var brace := m.segmentStart + |header|;
    Machine(m.headers + [header],
            if Taken(m.markers, brace) then m.exemptDepths + [|m.headers| + 1] else m.exemptDepths,
            Behind(m.markers, brace), brace + 1, m.raws)
  }

  function Leave(m: Machine, inner: Machine, tail: string): Machine {
    Machine(m.headers, m.exemptDepths, inner.markers, inner.segmentStart + |tail| + 1, inner.raws)
  }

  /** The machine over a tree instead of its text: a block puts both stacks back as they were. */
  function Exec(s: Sheet, m: Machine): (r: Machine)
    ensures r.headers == m.headers && r.exemptDepths == m.exemptDepths
    ensures r.segmentStart == m.segmentStart + Length(s)
  {
    match s case End => m case Then(item, next) => Exec(next, ExecItem(item, m))
  }

  function ExecItem(i: Item, m: Machine): (r: Machine)
    ensures r.headers == m.headers && r.exemptDepths == m.exemptDepths
    ensures r.segmentStart == m.segmentStart + Width(i)
  {
    match i
    case Statement(t) =>
      m.(segmentStart := m.segmentStart + |t| + 1,
         raws := m.raws + [Raw(m.segmentStart, t, m.exemptDepths != [], m.headers)])
    case Block(header, body, tail) => Leave(m, Exec(body, Entered(header, m)), tail)
  }

  lemma {:induction false} PassesSheet(text: string, s: Sheet, m: Machine)
    requires WellFormed(s) && ValidDepths(m) && Shows(text, m.segmentStart, Print(s))
    ensures Passes(text, m, Exec(s, m))
    decreases s
  {
    match s
    case End =>
    case Then(item, next) =>
      WidthIsPrinted(item);
      ShowsBoth(text, m.segmentStart, PrintItem(item), Print(next));
      PassesItem(text, item, m);
      PassesSheet(text, next, ExecItem(item, m));
      PassesOn(text, m, ExecItem(item, m), Exec(s, m));
  }

  lemma {:induction false} PassesItem(text: string, i: Item, m: Machine)
    requires WellFormedItem(i) && ValidDepths(m) && Shows(text, m.segmentStart, PrintItem(i))
    ensures Passes(text, m, ExecItem(i, m))
    decreases i
  {
    hide Passes, Exec, WellFormed;
    match i
    case Statement(t) => PassesDelimiter(text, m, t, ';');
    case Block(header, body, tail) =>
      var entered := Entered(header, m);
      var read := Exec(body, entered);
      LengthIsPrinted(body);
      BlockShows(text, m.segmentStart, header, Print(body), tail);
      PassesOpening(text, header, m);
      PassesSheet(text, body, entered);
      PassesClosing(text, header, tail, m, read);
      PassesOn(text, m, entered, read);
      PassesOn(text, m, read, Leave(m, read, tail));
  }

  lemma BlockShows(text: string, at: nat, header: string, body: string, tail: string)
    requires Shows(text, at, header + ['{'] + body + tail + ['}'])
    ensures Shows(text, at, header + ['{']) && Shows(text, at + |header| + 1, body)
    ensures Shows(text, at + |header| + 1 + |body|, tail + ['}'])
  {
    assert header + ['{'] + body + tail + ['}'] == (header + ['{']) + (body + (tail + ['}']));
    ShowsBoth(text, at, header + ['{'], body + (tail + ['}']));
    ShowsBoth(text, at + |header| + 1, body, tail + ['}']);
  }

  lemma PassesOpening(text: string, header: string, m: Machine)
    requires Plain(header) && ValidDepths(m) && Shows(text, m.segmentStart, header + ['{'])
    ensures Passes(text, m, Entered(header, m)) && ValidDepths(Entered(header, m))
  {
    PassesDelimiter(text, m, header, '{');
    EnteringIsValid(header, m);
  }

  lemma EnteringIsValid(header: string, m: Machine)
    requires ValidDepths(m)
    ensures ValidDepths(Entered(header, m))
  {
    assert forall i | 0 <= i < |m.exemptDepths| :: m.exemptDepths[i] in m.exemptDepths;
  }

  lemma PassesClosing(text: string, header: string, tail: string, m: Machine, read: Machine)
    requires Plain(tail) && ValidDepths(m) && Shows(text, read.segmentStart, tail + ['}'])
    requires read.headers == Entered(header, m).headers && read.exemptDepths == Entered(header, m).exemptDepths
    ensures Passes(text, read, Leave(m, read, tail))
  {
    PassesDelimiter(text, read, tail, '}');
    LeavingRestores(header, m, read, read.segmentStart + |tail|);
  }

  /** A closing brace outside every block starts a new segment, and nothing else. */
  lemma PassesStrayClose(text: string, m: Machine, plain: string)
    requires Plain(plain) && Shows(text, m.segmentStart, plain + ['}']) && ValidDepths(m) && m.headers == []
    ensures Passes(text, m, m.(segmentStart := m.segmentStart + |plain| + 1))
  {
    hide Passes, Shows;
    PassesDelimiter(text, m, plain, '}');
    NothingIsExempt(m);
  }

  lemma NothingIsExempt(m: Machine)
    ensures ValidDepths(m) && m.headers == [] ==> m.exemptDepths == []
  {
    assert |m.exemptDepths| > 0 ==> m.exemptDepths[0] in m.exemptDepths;
  }

  /** The closing brace restores both stacks: the top depth is the block's own exactly when it was pushed there. */
  lemma LeavingRestores(header: string, m: Machine, read: Machine, index: nat)
    requires ValidDepths(m)
    requires read.headers == Entered(header, m).headers && read.exemptDepths == Entered(header, m).exemptDepths
    ensures Close(read, index) == Machine(m.headers, m.exemptDepths, read.markers, index + 1, read.raws)
  {
    var depths := read.exemptDepths;
    assert read.headers[..|read.headers| - 1] == m.headers;
    if Taken(m.markers, m.segmentStart + |header|) {
      assert depths[..|depths| - 1] == m.exemptDepths;
    } else if depths != [] {
      assert depths[|depths| - 1] in m.exemptDepths;
    }
  }

  // ---------------------------------------------------------------- and the tree means what it holds

  lemma {:induction false} ExecTakes(s: Sheet, m: Machine)
    ensures Exec(s, m).markers == Left(Opens(s, m.segmentStart), m.markers)
    decreases s
  {
    match s
    case End =>
    case Then(item, next) =>
      ExecItemTakes(item, m);
      ExecTakes(next, ExecItem(item, m));
      TakesSplits(OpensIn(item, m.segmentStart), Opens(next, m.segmentStart + Width(item)), m.markers);
  }

  lemma {:induction false} ExecItemTakes(i: Item, m: Machine)
    ensures ExecItem(i, m).markers == Left(OpensIn(i, m.segmentStart), m.markers)
    decreases i
  {
    match i
    case Statement(_) =>
    case Block(header, body, _) =>
      ExecTakes(body, Entered(header, m));
      TakesCons(m.segmentStart + |header|, Opens(body, m.segmentStart + |header| + 1), m.markers);
  }

  /** What the sheet holds, the blocks being exempt as the reader's queue has it. */
  function Holds(s: Sheet, m: Machine): seq<Raw> {
    Meaning(s, m.segmentStart, m.headers, m.exemptDepths != [], Takes(Opens(s, m.segmentStart), m.markers))
  }

  function HoldsIn(i: Item, m: Machine): seq<Raw> {
    MeaningOf(i, m.segmentStart, m.headers, m.exemptDepths != [], Takes(OpensIn(i, m.segmentStart), m.markers))
  }

  lemma {:induction false} ExecFinds(s: Sheet, m: Machine)
    ensures Exec(s, m).raws == m.raws + Holds(s, m)
    decreases s, 1
  {
    match s
    case End =>
      assert m.raws + [] == m.raws;
    case Then(item, next) =>
      var n := ExecItem(item, m);
      ExecItemFinds(item, m);
      ExecFinds(next, n);
      HoldsSplits(item, next, m);
      assert m.raws + HoldsIn(item, m) + Holds(next, n) == m.raws + (HoldsIn(item, m) + Holds(next, n));
  }

  lemma {:induction false} HoldsSplits(item: Item, next: Sheet, m: Machine)
    ensures Holds(Then(item, next), m) == HoldsIn(item, m) + Holds(next, ExecItem(item, m))
  {
    var a, b := OpensIn(item, m.segmentStart), Opens(next, m.segmentStart + Width(item));
    ExecItemTakes(item, m);
    TakesSplits(a, b, m.markers);
    var flags, inside, outside := Takes(a + b, m.markers), Takes(a, m.markers), Takes(b, Left(a, m.markers));
    assert flags[..BlocksIn(item)] == inside && flags[BlocksIn(item)..] == outside;
  }

  lemma {:induction false} ExecItemFinds(i: Item, m: Machine)
    ensures ExecItem(i, m).raws == m.raws + HoldsIn(i, m)
    decreases i, 0
  {
    match i
    case Statement(_) =>
    case Block(header, body, _) =>
      var entered, brace := Entered(header, m), m.segmentStart + |header|;
      ExecFinds(body, entered);
      TakesCons(brace, Opens(body, brace + 1), m.markers);
      assert Takes(OpensIn(i, m.segmentStart), m.markers)[1..] == Takes(Opens(body, brace + 1), entered.markers);
  }

  /** Reading a printed stylesheet finds what it holds: every statement once, in order, under its full header path. */
  lemma ReadUndoesPrint(s: Sheet, end: string, markers: seq<nat>)
    requires WellFormed(s) && Plain(end)
    ensures var text, held := Print(s) + end, Meaning(s, 0, [], false, Takes(Opens(s, 0), markers));
      Read(text, markers) == AllDeclared(text, held)
  {
    hide Exec, Meaning, Opens, Takes, WellFormed, AllDeclared;
    var text, m := Print(s) + end, Start(markers);
    LengthIsPrinted(s);
    PassesSheet(text, s, m);
    ExecFinds(s, m);
    assert [] + Holds(s, m) == Holds(s, m);
    assert text[|Print(s)|..|text|] == end;
    RunOverPlain(text, Exec(s, m), |Print(s)|, |text|);
  }

  // ---------------------------------------------------------------- one printed declaration

  lemma {:induction false} FirstNonSpaceIsLead(lead: string, rest: string)
    requires Blank(lead) && rest != [] && !IsSpace(rest[0])
    ensures FirstNonSpace(lead + rest) == |lead|
  {
    if lead == [] {
      assert lead + rest == rest;
    } else {
      assert (lead + rest)[1..] == lead[1..] + rest;
      FirstNonSpaceIsLead(lead[1..], rest);
    }
  }

  lemma IndexOfColon(before: string, after: string)
    requires forall i | 0 <= i < |before| :: before[i] != ':'
    ensures IndexOf(before + [':'] + after, ':') == Some(|before|)
  {
    var s := before + [':'] + after;
    assert s[|before|] == ':' && forall i | 0 <= i < |before| :: s[i] == before[i];
  }

  lemma NoColonBefore(lead: string, property: string, mid: string)
    requires Blank(lead) && Blank(mid) && IsProperty(property)
    ensures forall i | 0 <= i < |lead + property + mid| :: (lead + property + mid)[i] != ':'
    ensures Trimmed(property) && property != []
  {
  }

  /** A declaration spaced at will, inside its value too, reads as its property and the value with single spaces. */
  lemma SegmentReads(lead: string, property: string, mid: string, pre: string, written: string, value: string,
                     post: string)
    requires Blank(lead) && Blank(mid) && Blank(pre) && Blank(post)
    requires IsProperty(property) && Normalised(value) && IsSpacing(written, value)
    ensures var segment := lead + property + mid + [':'] + (pre + written + post);
      Pairs(segment, Pair(property, value), |lead|)
  {
    hide IsSpacing, Normalised, IsProperty, ReadSegment, Trim, Collapse, FirstNonSpace;
    var before, after := lead + property + mid, pre + written + post;
    var segment := before + [':'] + after;
    NoColonBefore(lead, property, mid);
    assert FirstNonSpace(segment) == |lead| by {
      assert segment == lead + (property + mid + [':'] + after);
      FirstNonSpaceIsLead(lead, property + mid + [':'] + after);
    }
    assert Trim(before) == property by {
      TrimUndoesPadding(lead, property, mid);
    }
    assert Trim(Collapse(after)) == value by {
      NormaliseUndoesSpacing(pre, written, value, post);
    }
    SplitAtColon(before, after, property, value);
  }

  lemma SplitAtColon(before: string, after: string, property: string, value: string)
    requires before != [] && forall i | 0 <= i < |before| :: before[i] != ':'
    requires Trim(before) == property && IsProperty(property) && Trim(Collapse(after)) == value
    ensures ReadSegment(before + [':'] + after) == Some(Pair(property, value))
  {
    var segment := before + [':'] + after;
    IndexOfColon(before, after);
    assert segment[..|before|] == before && segment[|before| + 1..] == after;
  }

  /** A declaration printed with any spacing is read back as itself, on the line its property starts on. */
  lemma PrintedDeclarationReads(text: string, segment: string, lead: string, property: string, mid: string,
                                pre: string, written: string, value: string, post: string,
                                at: nat, exempt: bool, headers: seq<string>)
    requires segment == lead + property + mid + [':'] + (pre + written + post)
    requires Blank(lead) && Blank(mid) && Blank(pre) && Blank(post)
    requires IsProperty(property) && Normalised(value) && IsSpacing(written, value) && headers != []
    ensures Declared(text, Raw(at, segment, exempt, headers)) ==
      [Declaration(property, value, LineOf(text, at + |lead|), exempt, TrimAll(headers))]
  {
    hide ReadSegment, FirstNonSpace, Says, IsProperty, Normalised, IsSpacing, Blank, TrimAll;
    SegmentReads(lead, property, mid, pre, written, value, post);
    DeclaresPair(text, Raw(at, segment, exempt, headers), Pair(property, value), |lead|);
  }

  predicate IsWord(name: string) {
    && name != "" && ('a' <= name[0] <= 'z' || 'A' <= name[0] <= 'Z')
    && forall c | c in name :: 'a' <= c <= 'z' || 'A' <= c <= 'Z' || '0' <= c <= '9' || c == '_' || c == '-'
  }

  lemma NamesAreWords(name: string)
    ensures IsName(name) <==> IsWord(name)
  {
    if IsName(name) {
      forall c | c in name
        ensures 'a' <= c <= 'z' || 'A' <= c <= 'Z' || '0' <= c <= '9' || c == '_' || c == '-'
      {
        var i :| 0 <= i < |name| && name[i] == c;
        assert i > 0 ==> IsNameChar(name[i]);
      }
    }
    assert forall i | 0 <= i < |name| :: name[i] in name;
  }

  /** A property name is a letter and then letters, digits, underscores and hyphens, behind two hyphens or none. */
  lemma PropertyNames(s: string)
    ensures IsProperty(s) <==> IsWord(s) || exists name: string :: s == "--" + name && IsWord(name)
  {
    hide IsName, IsWord;
    NamesAreWords(s);
    if "--" <= s {
      NamesAreWords(s[2..]);
      assert s == "--" + s[2..] && s[0] == '-';
      HyphenIsNoWord(s);
    }
    forall name: string | s == "--" + name
      ensures "--" <= s && s[2..] == name
    {
    }
  }

  lemma HyphenIsNoWord(s: string)
    ensures s != "" && s[0] == '-' ==> !IsWord(s)
  {
  }
}
