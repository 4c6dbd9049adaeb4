/** A stylesheet source as text and whole comments, and how scripts/check-ui-stylesheets.ts blanks the comments. */
module StylesheetComments {
  import opened Prelude
  import opened StylesheetText
  import opened StylesheetReader
  import opened StylesheetProperties
  import opened StylesheetDeclarations

  predicate OpensAt(s: string, k: nat) {
    k + 2 <= |s| && s[k] == '/' && s[k + 1] == '*'
  }

  predicate ClosesAt(s: string, k: nat) {
    k + 2 <= |s| && s[k] == '*' && s[k + 1] == '/'
  }

  /** The first close at or behind `from` is at `k`. */
  predicate IsFirstClose(s: string, from: nat, k: nat) {
    from <= k && ClosesAt(s, k) && forall j: nat | from <= j < k :: !ClosesAt(s, j)
  }

  /** A comment ends behind the first close, whatever stands before it, and is none without one. */
  lemma {:induction false} CommentEndIsFirstClose(s: string, from: nat)
    ensures forall end: nat :: CommentEnd(s, from) == Some(end) <==> end >= 2 && IsFirstClose(s, from, end - 2)
    ensures CommentEnd(s, from).None? <==> forall j: nat | from <= j :: !ClosesAt(s, j)
    decreases |s| - from
  {
    if from + 2 <= |s| {
      if ClosesAt(s, from) {
        assert CommentEnd(s, from) == Some(from + 2);
      } else {
        CommentEndIsFirstClose(s, from + 1);
      }
    }
  }

  // ---------------------------------------------------------------- the source as its author means it

  /** One whole comment: its first close is its end. */
  predicate IsComment(c: string) {
    |c| >= 4 && OpensAt(c, 0) && IsFirstClose(c, 2, |c| - 2)
  }

  /** Text and comments in turn; the text at the end may open a comment that is never closed. */
  datatype Source = Tail(text: string) | Commented(text: string, comment: string, next: Source)

  ghost predicate Sound(d: Source) {
    match d
    case Tail(text) => forall k: nat, j: nat | OpensAt(text, k) && k + 2 <= j :: !ClosesAt(text, j)
    case Commented(text, comment, next) => (forall k: nat :: !OpensAt(text, k)) && IsComment(comment) && Sound(next)
  }

  function Written(d: Source): string {
    match d case Tail(text) => text case Commented(text, comment, next) => text + (comment + Written(next))
  }

  /** Every comment blank, line ends apart. */
  function WithBlanks(d: Source): string {
    match d case Tail(text) => text case Commented(text, comment, next) => text + (Blanked(comment) + WithBlanks(next))
  }

  function Shifted(markers: seq<nat>, distance: nat): (r: seq<nat>)
    ensures |r| == |markers| && forall i | 0 <= i < |r| :: r[i] == distance + markers[i]
  {
    seq(|markers|, i requires 0 <= i < |markers| => distance + markers[i])
  }

  /** The ends of the comments that are markers. */
  function MarkerEnds(d: Source, marks: string -> bool): seq<nat> {
    match d
    case Tail(_) => []
    case Commented(text, comment, next) =>
      var end := |text| + |comment|;
      (if marks(comment) then [end] else []) + Shifted(MarkerEnds(next, marks), end)
  }

  // ---------------------------------------------------------------- behind a lead

  lemma {:induction false} CommentEndShifts(lead: string, s: string, from: nat)
    requires from <= |s|
    ensures CommentEnd(lead + s, |lead| + from) ==
      match CommentEnd(s, from) case None => None case Some(end) => Some(|lead| + end)
    decreases |s| - from
  {
    var all := lead + s;
    if from + 2 <= |s| {
      assert all[|lead| + from] == s[from] && all[|lead| + from + 1] == s[from + 1];
      CommentEndShifts(lead, s, from + 1);
    }
  }

  lemma ShiftedFirst(end: nat, rest: seq<nat>, distance: nat)
    ensures Shifted([end] + rest, distance) == [distance + end] + Shifted(rest, distance)
    ensures Shifted([] + rest, distance) == [] + Shifted(rest, distance)
  {
    assert [] + rest == rest && [] + Shifted(rest, distance) == Shifted(rest, distance);
  }

  lemma CommentAtShifts(lead: string, s: string, i: nat)
    requires i <= |s|
    ensures CommentAt(lead + s, |lead| + i) ==
      match CommentAt(s, i) case None => None case Some(end) => Some(|lead| + end)
  {
    var all := lead + s;
    if i + 2 <= |s| {
      assert all[|lead| + i] == s[i] && all[|lead| + i + 1] == s[i + 1];
      CommentEndShifts(lead, s, i + 2);
    }
  }

  lemma KeepsOne(all: string, i: nat, marks: string -> bool)
    requires i < |all| && CommentAt(all, i).None?
    ensures StripFrom(all, i, marks).text == [all[i]] + StripFrom(all, i + 1, marks).text
    ensures StripFrom(all, i, marks).markers == StripFrom(all, i + 1, marks).markers
  {
    hide CommentAt;
  }

  lemma BlanksOne(all: string, i: nat, end: nat, marks: string -> bool)
    requires i < |all| && CommentAt(all, i) == Some(end)
    ensures StripFrom(all, i, marks).text == Blanked(all[i..end]) + StripFrom(all, end, marks).text
    ensures StripFrom(all, i, marks).markers
         == (if marks(all[i..end]) then [end] else []) + StripFrom(all, end, marks).markers
  {
    hide CommentAt, Blanked;
  }

  /** Stripping from behind a lead is stripping what follows it. */
  lemma {:induction false} StripShifts(lead: string, s: string, i: nat, marks: string -> bool)
    requires i <= |s|
    ensures StripFrom(lead + s, |lead| + i, marks).text == StripFrom(s, i, marks).text
    ensures StripFrom(lead + s, |lead| + i, marks).markers == Shifted(StripFrom(s, i, marks).markers, |lead|)
    decreases |s| - i
  {
    hide CommentAt, Blanked, Shifted, StripFrom;
    var all, n := lead + s, |lead|;
    if i < |s| {
      CommentAtShifts(lead, s, i);
      match CommentAt(s, i)
      case None =>
        KeepsOne(s, i, marks);
        KeepsOne(all, n + i, marks);
        StripShifts(lead, s, i + 1, marks);
        assert all[n + i] == s[i];
      case Some(end) =>
        BlanksOne(s, i, end, marks);
        BlanksOne(all, n + i, n + end, marks);
        StripShifts(lead, s, end, marks);
        assert all[n + i..n + end] == s[i..end];
        ShiftedFirst(end, StripFrom(s, end, marks).markers, n);
    } else {
      StripsNothing(s, marks);
      StripsNothing(all, marks);
    }
  }

  lemma StripsNothing(all: string, marks: string -> bool)
    ensures StripFrom(all, |all|, marks) == Stripped([], []) && forall d :: Shifted([], d) == []
  {
  }

  // ---------------------------------------------------------------- stripping, piece by piece

  lemma NoneOpensHere(text: string, rest: string, i: nat)
    requires i < |text| && !OpensAt(text, i) && (rest == "" || rest[0] != '*')
    ensures CommentAt(text + rest, i).None?
  {
    var all := text + rest;
    assert all[i] == text[i] && (i + 1 < |text| ==> all[i + 1] == text[i + 1]);
    assert i + 1 == |text| < |all| ==> all[i + 1] == rest[0];
  }

  /** Text that opens no comment is kept. */
  lemma {:induction false} StripKeepsText(text: string, rest: string, i: nat, marks: string -> bool)
    requires i <= |text| && (forall k: nat :: !OpensAt(text, k))
    requires rest == "" || rest[0] != '*'
    ensures StripFrom(text + rest, i, marks).text == text[i..] + StripFrom(text + rest, |text|, marks).text
    ensures StripFrom(text + rest, i, marks).markers == StripFrom(text + rest, |text|, marks).markers
    decreases |text| - i
  {
    hide CommentAt, OpensAt, StripFrom;
    var all := text + rest;
    if i < |text| {
      NoneOpensHere(text, rest, i);
      KeepsOne(all, i, marks);
      StripKeepsText(text, rest, i + 1, marks);
      assert text[i..] == [all[i]] + text[i + 1..];
    }
  }

  lemma ClosesWhere(text: string, c: string, rest: string, k: nat)
    requires k + 2 <= |c|
    ensures var all, at := text + (c + rest), |text|;
      ClosesAt(all, at + k) == ClosesAt(c, k) && OpensAt(all, at + k) == OpensAt(c, k)
  {
    var all, at := text + (c + rest), |text|;
    assert all[at + k] == c[k] && all[at + k + 1] == c[k + 1];
  }

  lemma CommentIsThere(text: string, c: string, rest: string)
    requires IsComment(c)
    ensures CommentAt(text + (c + rest), |text|) == Some(|text| + |c|)
  {
    hide ClosesAt;
    var all, at, end := text + (c + rest), |text|, |text| + |c|;
    ClosesWhere(text, c, rest, 0);
    ClosesWhere(text, c, rest, |c| - 2);
    forall j: nat | at + 2 <= j < end - 2
      ensures !ClosesAt(all, j)
    {
      ClosesWhere(text, c, rest, j - at);
    }
    assert IsFirstClose(all, at + 2, end - 2);
    CommentEndIsFirstClose(all, at + 2);
  }

  /** A comment becomes blank, and leaves its end behind if it is a marker. */
  lemma StripBlanksComment(text: string, c: string, rest: string, marks: string -> bool)
    requires IsComment(c)
    ensures var all, at, end := text + (c + rest), |text|, |text| + |c|;
      && StripFrom(all, at, marks).text == Blanked(c) + StripFrom(all, end, marks).text
      && StripFrom(all, at, marks).markers == (if marks(c) then [end] else []) + StripFrom(all, end, marks).markers
  {
    hide CommentAt, Blanked, IsFirstClose, StripFrom;
    var all := text + (c + rest);
    CommentIsThere(text, c, rest);
    BlanksOne(all, |text|, |text| + |c|, marks);
    assert all[|text|..|text| + |c|] == c;
  }

  /** Text in which no comment is closed is kept to its end. */
  lemma {:induction false} StripKeepsTail(text: string, i: nat, marks: string -> bool)
    requires i <= |text| && Sound(Tail(text))
    ensures StripFrom(text, i, marks) == Stripped(text[i..], [])
    decreases |text| - i
  {
    if i < |text| {
      CommentEndIsFirstClose(text, i + 2);
      if OpensAt(text, i) {
        assert forall j: nat | i + 2 <= j :: !ClosesAt(text, j);
      }
      assert CommentAt(text, i).None?;
      StripKeepsTail(text, i + 1, marks);
      assert text[i..] == [text[i]] + text[i + 1..];
    }
  }

  /** Text, a whole comment, and whatever follows. */
  lemma StripsInTurn(text: string, c: string, rest: string, marks: string -> bool)
    requires IsComment(c) && forall k: nat :: !OpensAt(text, k)
    ensures var all, stripped := StripComments(text + (c + rest), marks), StripComments(rest, marks);
      var end := |text| + |c|;
      && all.text == text + (Blanked(c) + stripped.text)
      && all.markers == (if marks(c) then [end] else []) + Shifted(stripped.markers, end)
  {
    hide StripFrom, Blanked, Shifted, IsFirstClose;
    StripKeepsText(text, c + rest, 0, marks);
    StripBlanksComment(text, c, rest, marks);
    assert text + (c + rest) == text + c + rest;
    StripShifts(text + c, rest, 0, marks);
    assert text[0..] == text;
  }

  /** Stripping a source blanks its comments, keeps its text and finds its markers. */
  lemma {:induction false} StripsItsComments(d: Source, marks: string -> bool)
    requires Sound(d)
    ensures StripComments(Written(d), marks) == Stripped(WithBlanks(d), MarkerEnds(d, marks))
    decreases d
  {
    hide StripFrom, Blanked, Shifted, IsComment, OpensAt, ClosesAt;
    match d
    case Tail(text) =>
      StripKeepsTail(text, 0, marks);
      assert text[0..] == text;
    case Commented(text, comment, next) =>
      StripsItsComments(next, marks);
      StripsInTurn(text, comment, Written(next), marks);
  }

  // ---------------------------------------------------------------- every source is one

  /** Where the first whole comment at or behind `from` starts. */
  function FirstComment(source: string, from: nat): (k: Option<nat>)
    requires from <= |source|
    ensures k.Some? ==> from <= k.value < |source| && CommentAt(source, k.value).Some?
    ensures forall j: nat | from <= j < |source| && (k.Some? ==> j < k.value) :: CommentAt(source, j).None?
    decreases |source| - from
  {
    if from == |source| then None
    else if CommentAt(source, from).Some? then Some(from)
    else FirstComment(source, from + 1)
  }

  function Parse(source: string): Source
    decreases |source|
  {
    match FirstComment(source, 0)
    case None => Tail(source)
    case Some(k) =>
      var end := CommentAt(source, k).value;
      Commented(source[..k], source[k..end], Parse(source[end..]))
  }

  lemma NoCommentIsTail(source: string)
    requires FirstComment(source, 0).None?
    ensures Sound(Tail(source))
  {
    forall k: nat, j: nat | OpensAt(source, k) && k + 2 <= j
      ensures !ClosesAt(source, j)
    {
      assert CommentAt(source, k).None?;
      CommentEndIsFirstClose(source, k + 2);
    }
  }

  lemma FirstCommentIsWhole(source: string, k: nat)
    requires FirstComment(source, 0) == Some(k)
    ensures var end := CommentAt(source, k).value;
      IsComment(source[k..end]) && forall j: nat :: !OpensAt(source[..k], j)
  {
    var end := CommentAt(source, k).value;
    var c := source[k..end];
    CommentEndIsFirstClose(source, k + 2);
    assert IsFirstClose(source, k + 2, end - 2);
    forall j: nat | j + 2 <= |c|
      ensures ClosesAt(c, j) == ClosesAt(source, k + j)
    {
      assert c[j] == source[k + j] && c[j + 1] == source[k + j + 1];
    }
    assert c[0] == source[k] && c[1] == source[k + 1];
    forall j: nat
      ensures !OpensAt(source[..k], j)
    {
      if j + 2 <= k {
        CommentEndIsFirstClose(source, j + 2);
        assert CommentEnd(source, j + 2).Some? by { assert ClosesAt(source, end - 2); }
        assert CommentAt(source, j).None?;
        assert source[..k][j] == source[j] && source[..k][j + 1] == source[j + 1];
      }
    }
  }

  /** So `StripsItsComments` speaks of every source. */
  lemma {:induction false} EverySourceIsWritten(source: string)
    ensures Sound(Parse(source)) && Written(Parse(source)) == source
    decreases |source|
  {
    match FirstComment(source, 0)
    case None => NoCommentIsTail(source);
    case Some(k) =>
      var end := CommentAt(source, k).value;
      FirstCommentIsWhole(source, k);
      EverySourceIsWritten(source[end..]);
      assert source == source[..k] + (source[k..end] + source[end..]);
  }

  /** The reader on a source whose text around its comments is a stylesheet of declarations. */
  lemma ReadsCommentedSheet(d: Source, marks: string -> bool, s: Styles, end: string)
    requires Sound(d) && WellWritten(s) && Plain(end) && WithBlanks(d) == Print(SheetOf(s)) + end
    ensures var stripped := StripComments(Written(d), marks);
      Read(stripped.text, stripped.markers)
      == Declarations(s, Written(d), 0, [], false, Takes(Opens(SheetOf(s), 0), MarkerEnds(d, marks)))
  {
    StripsItsComments(d, marks);
    ReadsItsDeclarations(Written(d), marks, s, end);
  }
}
