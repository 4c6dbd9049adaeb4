/**
 `readDeclarations` of scripts/check-ui-stylesheets.ts: a one-pass stack machine
 over blocks and `property: value;` segments, with a queue of exemption markers
 that opening blocks take from.
 */
module StylesheetReader {
  import opened Prelude
  import opened StylesheetText

  datatype Declaration = Declaration(property: string, value: string, line: nat, exempt: bool, headers: seq<string>)

  predicate IsLetter(c: char) {
    'a' <= c <= 'z' || 'A' <= c <= 'Z'
  }

  predicate IsNameChar(c: char) {
    IsLetter(c) || '0' <= c <= '9' || c == '_' || c == '-'
  }

  predicate IsName(s: string) {
    s != [] && IsLetter(s[0]) && forall i | 0 < i < |s| :: IsNameChar(s[i])
  }

  /** An optional `--`, a letter, then letters, digits, `_` and `-`. */
  predicate IsProperty(s: string) {
    IsName(if "--" <= s then s[2..] else s)
  }

  function IndexOf(s: string, c: char): (r: Option<nat>)
    ensures r.Some? ==> r.value < |s| && s[r.value] == c && forall i | 0 <= i < r.value :: s[i] != c
    ensures r.None? ==> forall i | 0 <= i < |s| :: s[i] != c
  {
    if s == [] then None
    else if s[0] == c then Some(0)
    else match IndexOf(s[1..], c)
      case None => None
      case Some(i) => Some(i + 1)
  }

  datatype Pair = Pair(property: string, value: string)

  /** What a segment before a `;` declares, if its name is one. */
  function ReadSegment(segment: string): Option<Pair> {
    match IndexOf(segment, ':')
    case None => None
    case Some(colon) =>
      var property := Trim(segment[..colon]);
      if colon > 0 && IsProperty(property) then Some(Pair(property, Trim(Collapse(segment[colon + 1..])))) else None
  }

  /** `segment.search(/\S/)`, for a segment that is not blank. */
  function FirstNonSpace(segment: string): (n: nat)
    ensures n <= |segment|
  {
    if segment != [] && IsSpace(segment[0]) then 1 + FirstNonSpace(segment[1..]) else 0
  }

  /**
   A segment that ended in a `;`: where it starts, the headers around it as written,
   and whether a block around it is exempt. Reading a stylesheet finds these; what
   each declares depends on nothing else.
   */
  datatype Raw = Raw(start: nat, segment: string, exempt: bool, headers: seq<string>)

  function TrimAll(headers: seq<string>): (r: seq<string>)
    ensures |r| == |headers|
  {
    seq(|headers|, i requires 0 <= i < |headers| => Trim(headers[i]))
  }

  lemma TrimAllStack(headers: seq<string>, header: string)
    ensures TrimAll(headers + [header]) == TrimAll(headers) + [Trim(header)]
    ensures headers != [] ==> TrimAll(headers[..|headers| - 1]) == TrimAll(headers)[..|headers| - 1]
  {
  }

  /** The declaration of one segment, if it makes one: outside every block none does. */
  function Declared(text: string, raw: Raw): seq<Declaration> {
    match ReadSegment(raw.segment)
    case None => []
    case Some(p) =>
      if raw.headers == [] then []
      else
        var line := LineOf(text, raw.start + FirstNonSpace(raw.segment));
        [Declaration(p.property, p.value, line, raw.exempt, TrimAll(raw.headers))]
  }

  /** The segment declares the pair, behind `lead` characters of white space. */
  predicate Pairs(segment: string, pair: Pair, lead: nat) {
    ReadSegment(segment) == Some(pair) && FirstNonSpace(segment) == lead
  }

  /** The statement declares just that. */
  predicate Says(text: string, raw: Raw, declared: seq<Declaration>) {
    Declared(text, raw) == declared
  }

  lemma DeclaresPair(text: string, raw: Raw, pair: Pair, lead: nat)
    requires raw.headers != [] && Pairs(raw.segment, pair, lead)
    ensures Says(text, raw, [Declaration(pair.property, pair.value, LineOf(text, raw.start + lead), raw.exempt,
                                         TrimAll(raw.headers))])
  {
  }

  lemma DeclaresNothing(text: string, raw: Raw)
    requires raw.headers == [] || ReadSegment(raw.segment).None?
    ensures Says(text, raw, [])
  {
  }

  function AllDeclared(text: string, raws: seq<Raw>): seq<Declaration> {
    if raws == [] then []
    else AllDeclared(text, raws[..|raws| - 1]) + Declared(text, raws[|raws| - 1])
  }

  lemma DeclareOneMore(text: string, raws: seq<Raw>, raw: Raw)
    ensures AllDeclared(text, raws + [raw]) == AllDeclared(text, raws) + Declared(text, raw)
  {
    var all := raws + [raw];
    assert all[..|all| - 1] == raws && all[|all| - 1] == raw;
  }

  /** The reader's stacks; `markers` starts with the pending one. */
  datatype Machine = Machine(
    headers: seq<string>, exemptDepths: seq<nat>, markers: seq<nat>, segmentStart: nat, raws: seq<Raw>)

  /** Whether the block that opens at `brace` takes the pending marker. */
  predicate Taken(markers: seq<nat>, brace: nat) {
    markers != [] && markers[0] <= brace
  }

  function Behind(markers: seq<nat>, brace: nat): seq<nat> {
    if Taken(markers, brace) then markers[1..] else markers
  }

  function Open(text: string, m: Machine, index: nat): Machine
    requires m.segmentStart <= index < |text|
  {
    Machine(m.headers + [text[m.segmentStart..index]],
            if Taken(m.markers, index) then m.exemptDepths + [|m.headers| + 1] else m.exemptDepths,
            Behind(m.markers, index), index + 1, m.raws)
  }

  function Close(m: Machine, index: nat): Machine {
    var depths := m.exemptDepths;
    Machine(if m.headers == [] then [] else m.headers[..|m.headers| - 1],
            if depths != [] && depths[|depths| - 1] == |m.headers| then depths[..|depths| - 1] else depths,
            m.markers, index + 1, m.raws)
  }

  function Declare(text: string, m: Machine, index: nat): Machine
    requires m.segmentStart <= index < |text|
  {
    m.(segmentStart := index + 1,
       raws := m.raws + [Raw(m.segmentStart, text[m.segmentStart..index], m.exemptDepths != [], m.headers)])
  }

  function Step(text: string, m: Machine, index: nat): (r: Machine)
    requires m.segmentStart <= index < |text|
    ensures r.segmentStart <= index + 1
  {
    if text[index] == '{' then Open(text, m, index)
    else if text[index] == '}' then Close(m, index)
    else if text[index] == ';' then Declare(text, m, index)
    else m
  }

  /** The machine over the characters from `from` up to `to`. */
  function Run(text: string, m: Machine, from: nat, to: nat): (r: Machine)
    requires m.segmentStart <= from <= to <= |text|
    ensures r.segmentStart <= to
    decreases |text| - from
  {
    if from == to then m else Run(text, Step(text, m, from), from + 1, to)
  }

  lemma {:induction false} RunSplits(text: string, m: Machine, from: nat, mid: nat, to: nat)
    requires m.segmentStart <= from <= mid <= to <= |text|
    ensures Run(text, m, from, to) == Run(text, Run(text, m, from, mid), mid, to)
    decreases |text| - from
  {
    if from < mid {
      RunSplits(text, Step(text, m, from), from + 1, mid, to);
    }
  }

  lemma RunSteps(text: string, m: Machine, from: nat)
    requires m.segmentStart <= from < |text|
    ensures Run(text, m, from, |text|) == Run(text, Step(text, m, from), from + 1, |text|)
  {
  }

  function Start(markers: seq<nat>): Machine {
    Machine([], [], markers, 0, [])
  }

  /** What the reader returns for a comment-free text and the offsets of its markers. */
  function Read(text: string, markers: seq<nat>): seq<Declaration> {
    AllDeclared(text, Run(text, Start(markers), 0, |text|).raws)
  }

  /** The reader's variables are the machine's, headers trimmed and statements declared as they come. */
  ghost predicate Mirrors(text: string, m: Machine, declarations: seq<Declaration>, headers: seq<string>,
                          exemptDepths: seq<nat>, markers: seq<nat>, segmentStart: nat)
  {
    && segmentStart == m.segmentStart && headers == TrimAll(m.headers)
    && exemptDepths == m.exemptDepths && markers == m.markers
    && declarations == AllDeclared(text, m.raws)
  }

  lemma OpenMirrors(text: string, m: Machine, index: nat, declarations: seq<Declaration>, headers: seq<string>)
    requires m.segmentStart <= index < |text| && text[index] == '{'
    requires Mirrors(text, m, declarations, headers, m.exemptDepths, m.markers, m.segmentStart)
    ensures Mirrors(text, Step(text, m, index), declarations, headers + [Trim(text[m.segmentStart..index])],
                    if Taken(m.markers, index) then m.exemptDepths + [|headers| + 1] else m.exemptDepths,
                    Behind(m.markers, index), index + 1)
  {
    TrimAllStack(m.headers, text[m.segmentStart..index]);
  }

  lemma CloseMirrors(text: string, m: Machine, index: nat, declarations: seq<Declaration>, headers: seq<string>)
    requires m.segmentStart <= index < |text| && text[index] == '}'
    requires Mirrors(text, m, declarations, headers, m.exemptDepths, m.markers, m.segmentStart)
    ensures var depths := m.exemptDepths;
      Mirrors(text, Step(text, m, index), declarations, if headers == [] then [] else headers[..|headers| - 1],
              if depths != [] && depths[|depths| - 1] == |headers| then depths[..|depths| - 1] else depths,
              m.markers, index + 1)
  {
    TrimAllStack(m.headers, "");
  }

  lemma StartMirrors(text: string, markers: seq<nat>)
    ensures Mirrors(text, Start(markers), [], [], [], markers, 0)
  {
  }

  method ReadDeclarations(source: string, marks: string -> bool) returns (declarations: seq<Declaration>)
    ensures var s := StripComments(source, marks); declarations == Read(s.text, s.markers)
  {
    hide Open, Close, Declare, AllDeclared, TrimAll, StripFrom, Trim;
    var stripped := StripComments(source, marks);
    var text := stripped.text;
    var markers: seq<nat> := stripped.markers;
    ghost var m, goal := Start(markers), Run(text, Start(markers), 0, |text|);
    declarations := [];
    var headers: seq<string> := [];
    var exemptDepths: seq<nat> := [];
    var segmentStart: nat := 0;
    StartMirrors(text, markers);
    for index := 0 to |text|
      invariant m.segmentStart <= index
      invariant Mirrors(text, m, declarations, headers, exemptDepths, markers, segmentStart)
      invariant Run(text, m, index, |text|) == goal
    {
      RunSteps(text, m, index);
      ghost var before := m;
      m := Step(text, m, index);
      var c := text[index];
      if c == '{' {
        OpenMirrors(text, before, index, declarations, headers);
        headers := headers + [Trim(text[segmentStart..index])];
        if markers != [] && markers[0] <= index {
          exemptDepths := exemptDepths + [|headers|];
          markers := markers[1..];
        }
        segmentStart := index + 1;
      } else if c == '}' {
        CloseMirrors(text, before, index, declarations, headers);
        if exemptDepths != [] && exemptDepths[|exemptDepths| - 1] == |headers| {
          exemptDepths := exemptDepths[..|exemptDepths| - 1];
        }
        if headers != [] {
          headers := headers[..|headers| - 1];
        }
        segmentStart := index + 1;
      } else if c == ';' {
        declarations := ReadStatement(text, segmentStart, index, exemptDepths != [], headers, declarations, before);
        segmentStart := index + 1;
      }
    }
    assert Run(text, m, |text|, |text|) == m;
  }

  /** The branch for `;`: the declaration the segment makes, if any, is pushed. */
  method ReadStatement(text: string, segmentStart: nat, index: nat, exempt: bool, headers: seq<string>,
                       declarations: seq<Declaration>, ghost m: Machine)
    returns (pushed: seq<Declaration>)
    requires segmentStart == m.segmentStart <= index < |text| && text[index] == ';'
    requires exempt == (m.exemptDepths != [])
    requires Mirrors(text, m, declarations, headers, m.exemptDepths, m.markers, segmentStart)
    ensures Mirrors(text, Step(text, m, index), pushed, headers, m.exemptDepths, m.markers, index + 1)
  {
    ghost var raw := Raw(segmentStart, text[segmentStart..index], exempt, m.headers);
    DeclareOneMore(text, m.raws, raw);
    var made := DeclarationOf(text, segmentStart, text[segmentStart..index], exempt, headers, raw);
    pushed := declarations + made;
    assert Step(text, m, index) == m.(segmentStart := index + 1, raws := m.raws + [raw]);
  }

  /** What one segment declares: nothing outside every block or without a property name. */
  method DeclarationOf(text: string, segmentStart: nat, segment: string, exempt: bool, headers: seq<string>,
                       ghost raw: Raw)
    returns (made: seq<Declaration>)
    requires segmentStart + |segment| <= |text| && headers == TrimAll(raw.headers)
    requires raw == Raw(segmentStart, segment, exempt, raw.headers)
    ensures made == Declared(text, raw)
  {
    var pair := ReadSegment(segment);
    if pair.None? || headers == [] {
      DeclaresNothing(text, raw);
      return [];
    }
    var line := LineAt(text, segmentStart + FirstNonSpace(segment));
    DeclaresPair(text, raw, pair.value, FirstNonSpace(segment));
    made := [Declaration(pair.value.property, pair.value.value, line, exempt, headers)];
  }
}
