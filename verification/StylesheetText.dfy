/**
 The text functions under the stylesheet reader of scripts/check-ui-stylesheets.ts,
 character by character: white space as `trim` and the patterns have it, comment
 blanking and line counting.
 */
module StylesheetText {
  import opened Prelude

  /** The spaces and line ends beyond ASCII. */
  predicate IsWideSpace(c: char) {
    || c == '\U{00A0}' || c == '\U{1680}' || '\U{2000}' <= c <= '\U{200A}' || c == '\U{2028}' || c == '\U{2029}'
    || c == '\U{202F}' || c == '\U{205F}' || c == '\U{3000}' || c == '\U{FEFF}'
  }

  /** `\s`, which is also what `trim` removes. */
  predicate IsSpace(c: char) {
    if c < '\U{0080}' then c == ' ' || '\t' <= c <= '\r' else IsWideSpace(c)
  }

  /** The 25 code points that ECMA-262 counts as white space or line ends, in its sections 12.2 and 12.3. */
  lemma SpacesAre(c: char)
    ensures IsSpace(c) <==>
      || 9 <= c as int <= 13 || 0x2000 <= c as int <= 0x200A
      || c as int in {0x20, 0xA0, 0x1680, 0x2028, 0x2029, 0x202F, 0x205F, 0x3000, 0xFEFF}
  {
  }

  predicate Blank(s: string) {
    forall i | 0 <= i < |s| :: IsSpace(s[i])
  }

  function TrimStart(s: string): string {
    if s != [] && IsSpace(s[0]) then TrimStart(s[1..]) else s
  }

  function TrimEnd(s: string): string {
    if s != [] && IsSpace(s[|s| - 1]) then TrimEnd(s[..|s| - 1]) else s
  }

  function Trim(s: string): string {
    TrimEnd(TrimStart(s))
  }

  /** `replace(/\s+/g, " ")` */
  function Collapse(s: string): string {
    if s == [] then []
    else if !IsSpace(s[0]) then [s[0]] + Collapse(s[1..])
    else if |s| > 1 && IsSpace(s[1]) then Collapse(s[1..])
    else [' '] + Collapse(s[1..])
  }

  /** No space at either end. */
  predicate Trimmed(s: string) {
    s != [] ==> !IsSpace(s[0]) && !IsSpace(s[|s| - 1])
  }

  /** Whitespace-normalised: trimmed, and inside only single spaces. */
  predicate Normalised(s: string) {
    Trimmed(s) && forall i | 0 <= i < |s| && IsSpace(s[i]) :: s[i] == ' ' && i + 1 < |s| && !IsSpace(s[i + 1])
  }

  lemma {:induction false} TrimStartSkips(lead: string, s: string)
    requires Blank(lead) && (s != [] ==> !IsSpace(s[0]))
    ensures TrimStart(lead + s) == s
  {
    if lead == [] {
      assert lead + s == s;
    } else {
      assert (lead + s)[1..] == lead[1..] + s;
      TrimStartSkips(lead[1..], s);
    }
  }

  lemma {:induction false} TrimEndDrops(s: string, rest: string)
    requires Blank(rest) && (s != [] ==> !IsSpace(s[|s| - 1]))
    ensures TrimEnd(s + rest) == s
  {
    if rest == [] {
      assert s + rest == s;
    } else {
      assert (s + rest)[..|s + rest| - 1] == s + rest[..|rest| - 1];
      TrimEndDrops(s, rest[..|rest| - 1]);
    }
  }

  lemma TrimUndoesPadding(lead: string, s: string, rest: string)
    requires Blank(lead) && Blank(rest) && Trimmed(s)
    ensures Trim(lead + s + rest) == s
  {
    if s == [] {
      assert lead + s + rest == (lead + rest) + [];
      TrimStartSkips(lead + rest, []);
    } else {
      assert lead + s + rest == lead + (s + rest);
      TrimStartSkips(lead, s + rest);
      TrimEndDrops(s, rest);
    }
  }

  /** A blank run collapses to one space at most. */
  lemma {:induction false} CollapseLead(lead: string, s: string)
    requires Blank(lead) && (s != [] ==> !IsSpace(s[0]))
    ensures Collapse(lead + s) == (if lead == [] then [] else [' ']) + Collapse(s)
  {
    if lead == [] {
      assert lead + s == s && [] + Collapse(s) == Collapse(s);
    } else {
      assert (lead + s)[1..] == lead[1..] + s;
      CollapseLead(lead[1..], s);
      if |lead| == 1 {
        assert lead[1..] + s == s;
      } else {
        assert IsSpace((lead + s)[1]);
      }
    }
  }

  /** `written` is the normalised `value` with every space of it stretched into a run of white space. */
  predicate IsSpacing(written: string, value: string) {
    if value == "" then written == ""
    else if IsSpace(value[0]) then
      exists n ::
        0 < n < |written| && Blank(written[..n]) && !IsSpace(written[n]) && IsSpacing(written[n..], value[1..])
    else written != "" && written[0] == value[0] && IsSpacing(written[1..], value[1..])
  }

  lemma NormalisedTail(s: string)
    requires Normalised(s) && s != ""
    ensures |s| > 1 && IsSpace(s[1]) ==> s[1] == ' ' && |s| > 2 && !IsSpace(s[2]) && Normalised(s[1..][1..])
    ensures |s| == 1 || !IsSpace(s[1]) ==> Normalised(s[1..])
  {
    assert forall i | 0 <= i < |s| - 1 :: s[1..][i] == s[i + 1];
    assert |s| > 1 ==> forall i | 0 <= i < |s| - 2 :: s[1..][1..][i] == s[i + 2];
  }

  lemma CollapseKeeps(s: string)
    requires s != "" && !IsSpace(s[0])
    ensures Collapse(s) == [s[0]] + Collapse(s[1..])
  {
  }

  /** A normalised value, or what follows a word of one. */
  predicate IsRest(value: string) {
    if value != "" && IsSpace(value[0]) then value[0] == ' ' && Normalised(value[1..]) else Normalised(value)
  }

  lemma RestOfRest(value: string)
    requires IsRest(value) && value != ""
    ensures IsRest(value[1..])
  {
    if !IsSpace(value[0]) { NormalisedTail(value); }
  }

  lemma SpacingSplits(written: string, value: string) returns (n: nat)
    requires IsSpacing(written, value) && IsRest(value) && value != ""
    ensures 0 < n <= |written| && IsSpacing(written[n..], value[1..])
    ensures if IsSpace(value[0]) then value[0] == ' ' && Blank(written[..n]) && n < |written| && !IsSpace(written[n])
            else n == 1 && written[0] == value[0]
  {
    hide Normalised;
    if IsSpace(value[0]) {
      n :| 0 < n < |written| && Blank(written[..n]) && !IsSpace(written[n]) && IsSpacing(written[n..], value[1..]);
    } else {
      n := 1;
    }
  }

  /** A value spaced at will collapses to the value. */
  lemma {:induction false} CollapseSpacing(written: string, value: string, rest: string)
    requires IsSpacing(written, value) && Blank(rest) && IsRest(value)
    ensures Collapse(written + rest) == value + Collapse(rest)
    decreases |value|
  {
    hide Collapse, IsSpace, IsRest, Blank, IsSpacing;
    if value == "" {
      SpacingOfNothing(written);
      assert written + rest == rest;
    } else {
      var n := SpacingSplits(written, value);
      RestOfRest(value);
      CollapseSpacing(written[n..], value[1..], rest);
      assert value == [value[0]] + value[1..];
      if IsSpace(value[0]) {
        assert written + rest == written[..n] + (written[n..] + rest);
        CollapseLead(written[..n], written[n..] + rest);
      } else {
        assert (written + rest)[1..] == written[1..] + rest;
        CollapseKeeps(written + rest);
      }
    }
  }

  lemma SpacingStarts(written: string, value: string)
    requires Normalised(value) && IsSpacing(written, value) && value != ""
    ensures written != "" && !IsSpace(written[0])
  {
  }

  /** Collapsing and trimming a value spaced at will, inside and around, gives the value back. */
  lemma {:induction false} NormaliseUndoesSpacing(lead: string, written: string, value: string, rest: string)
    requires Blank(lead) && Blank(rest) && Normalised(value) && IsSpacing(written, value)
    ensures Trim(Collapse(lead + written + rest)) == value
  {
    hide IsSpacing, Collapse;
    var one: string := [' '];
    CollapseOfNothing();
    if value == "" {
      SpacingOfNothing(written);
      assert lead + written + rest == (lead + rest) + "";
      CollapseLead(lead + rest, "");
      TrimUndoesPadding(if lead + rest == "" then "" else one, "", "");
    } else {
      SpacingStarts(written, value);
      assert lead + written + rest == lead + (written + rest);
      CollapseLead(lead, written + rest);
      assert IsRest(value);
      CollapseSpacing(written, value, rest);
      assert rest + "" == rest;
      CollapseLead(rest, "");
      var front, back := if lead == "" then "" else one, if rest == "" then "" else one;
      assert Collapse(lead + written + rest) == front + value + back;
      TrimUndoesPadding(front, value, back);
    }
  }

  lemma CollapseOfNothing()
    ensures Collapse("") == ""
  {
  }

  lemma SpacingOfNothing(written: string)
    requires IsSpacing(written, "")
    ensures written == ""
  {
  }

  // ---------------------------------------------------------------- lines

  function Newlines(s: string): nat {
    if s == [] then 0 else Newlines(s[..|s| - 1]) + (if s[|s| - 1] == '\n' then 1 else 0)
  }

  /** How many of the characters end a line. */
  lemma {:induction false} NewlinesAreCounted(s: string)
    ensures Newlines(s) == |set i | 0 <= i < |s| && s[i] == '\n'|
  {
    var all := set i | 0 <= i < |s| && s[i] == '\n';
    if s != "" {
      var n := |s| - 1;
      var front := s[..n];
      var before := set i | 0 <= i < |front| && front[i] == '\n';
      NewlinesAreCounted(front);
      assert all == if s[n] == '\n' then before + {n} else before;
    }
  }

  /** The line of an offset, counted from one. */
  function LineOf(source: string, offset: nat): nat {
    1 + Newlines(if offset <= |source| then source[..offset] else source)
  }

  /** `lineAt` */
  method LineAt(source: string, index: nat) returns (line: nat)
    requires index <= |source|
    ensures line == LineOf(source, index)
  {
    line := 1;
    for i := 0 to index
      invariant line == 1 + Newlines(source[..i])
    {
      assert source[..i + 1][..i] == source[..i];
      if source[i] == '\n' {
        line := line + 1;
      }
    }
  }

  // ---------------------------------------------------------------- comments

  /** Just past the first comment close at or after `from`. */
  function CommentEnd(source: string, from: nat): (r: Option<nat>)
    ensures r.Some? ==> from + 2 <= r.value <= |source|
    decreases |source| - from
  {
    if from + 2 > |source| then None
    else if source[from] == '*' && source[from + 1] == '/' then Some(from + 2)
    else CommentEnd(source, from + 1)
  }

  /** Where a comment that opens at `i` ends. */
  function CommentAt(source: string, i: nat): (r: Option<nat>)
    ensures r.Some? ==> i + 4 <= r.value <= |source|
  {
    if i + 2 <= |source| && source[i] == '/' && source[i + 1] == '*' then CommentEnd(source, i + 2) else None
  }

  function Blanked(comment: string): (r: string)
    ensures |r| == |comment|
    ensures forall i | 0 <= i < |r| :: r[i] == if comment[i] == '\n' then '\n' else ' '
  {
    seq(|comment|, i requires 0 <= i < |comment| => if comment[i] == '\n' then '\n' else ' ')
  }

  datatype Stripped = Stripped(text: string, markers: seq<nat>)

  /** `stripComments` from `i` on; `marks` is the exception-marker pattern. */
  function StripFrom(source: string, i: nat, marks: string -> bool): Stripped
    requires i <= |source|
    decreases |source| - i
  {
    if i == |source| then Stripped([], [])
    else match CommentAt(source, i)
      case None =>
        var rest := StripFrom(source, i + 1, marks);
        Stripped([source[i]] + rest.text, rest.markers)
      case Some(end) =>
        var rest := StripFrom(source, end, marks);
        Stripped(Blanked(source[i..end]) + rest.text, (if marks(source[i..end]) then [end] else []) + rest.markers)
  }

  function StripComments(source: string, marks: string -> bool): Stripped {
    StripFrom(source, 0, marks)
  }

  ghost predicate Increasing(s: seq<nat>) {
    forall i, j | 0 <= i < j < |s| :: s[i] < s[j]
  }

  /** Whether `k` lies in a comment, for a scan that starts at `i`. */
  predicate InComment(source: string, i: nat, k: nat)
    requires i <= k < |source|
    decreases |source| - i
  {
    match CommentAt(source, i)
    case None => k != i && InComment(source, i + 1, k)
    case Some(end) => k < end || InComment(source, end, k)
  }

  function Kept(c: char, blanked: bool): char {
    if blanked && c != '\n' then ' ' else c
  }

  /** Blanking keeps every offset and every newline, and touches nothing outside comments. */
  lemma {:induction false} StripIsPointwise(source: string, i: nat, marks: string -> bool)
    requires i <= |source|
    ensures |StripFrom(source, i, marks).text| == |source| - i
    ensures forall k | i <= k < |source| ::
      StripFrom(source, i, marks).text[k - i] == Kept(source[k], InComment(source, i, k))
    decreases |source| - i
  {
    hide CommentAt, CommentEnd;
    if i < |source| {
      var n := match CommentAt(source, i) case None => i + 1 case Some(end) => end;
      var front := if CommentAt(source, i).None? then [source[i]] else Blanked(source[i..n]);
      var r, rest := StripFrom(source, i, marks).text, StripFrom(source, n, marks).text;
      StripIsPointwise(source, n, marks);
      assert r == front + rest && |front| == n - i;
      forall k | i <= k < |source|
        ensures r[k - i] == Kept(source[k], InComment(source, i, k))
      {
        if k < n {
          assert r[k - i] == front[k - i];
        } else {
          assert r[k - i] == rest[k - n];
        }
      }
    }
  }

  /** Markers come in source order. */
  lemma {:induction false} MarkersIncrease(source: string, i: nat, marks: string -> bool)
    requires i <= |source|
    ensures Increasing(StripFrom(source, i, marks).markers)
    ensures forall m | m in StripFrom(source, i, marks).markers :: i < m <= |source|
    decreases |source| - i
  {
    if i < |source| {
      match CommentAt(source, i)
      case None =>
        MarkersIncrease(source, i + 1, marks);
      case Some(end) =>
        MarkersIncrease(source, end, marks);
        var rest := StripFrom(source, end, marks).markers;
        assert forall j | 0 <= j < |rest| :: rest[j] in rest;
    }
  }

  lemma {:induction false} StripKeepsLines(source: string, marks: string -> bool, n: nat)
    requires n <= |source|
    ensures |StripComments(source, marks).text| == |source|
    ensures Newlines(StripComments(source, marks).text[..n]) == Newlines(source[..n])
  {
    hide StripFrom, InComment, CommentAt;
    StripIsPointwise(source, 0, marks);
    if n > 0 {
      StripKeepsLines(source, marks, n - 1);
      var text := StripComments(source, marks).text;
      assert text[..n][..n - 1] == text[..n - 1] && source[..n][..n - 1] == source[..n - 1];
      assert text[n - 1 - 0] == '\n' <==> source[n - 1] == '\n';
    }
  }
}
