/**
 A stylesheet whose second exception marker exempts the wrong rule: two marker
 comments before one rule, read by scripts/check-ui-stylesheets.ts. The text is
 blanked, parsed and read step by step.
 */
module StylesheetSpills {
  import opened Prelude
  import opened StylesheetText
  import opened StylesheetReader
  import opened StylesheetProperties
  import opened StylesheetDeclarations
  import opened StylesheetExemptions
  import opened StylesheetComments

  const TWO_RULES: string := "a{}b{c:d;}"

  /** The rule `b`, and the rule before it. */
  const INNER := And(Property("", "c", "", "", "d", "d", ""), Done)
  const SECOND := Rule("", "b", "", INNER, "")

  function First(blank: string): Style {
    Rule(blank, "a", "", Done, "")
  }

  /** The text of both marker comments blanked, and the rules. */
  function MarkedRules(blank: string): Styles {
    And(First(blank), And(SECOND, Done))
  }

  lemma InnerIs(at: nat)
    ensures WellWritten(INNER) && Print(SheetOf(INNER)) == "c:d;" && Opens(SheetOf(INNER), at) == []
    ensures Length(SheetOf(INNER)) == 4
  {
    assert PairText("", "c", "", "", "d", "") == "c:d";
    assert IsProperty("c") && Normalised("d");
  }

  lemma SecondIs(at: nat)
    ensures WellWrittenStyle(SECOND) && PrintItem(ItemOf(SECOND)) == "b{c:d;}" && OpensIn(ItemOf(SECOND), at) == [at + 1]
  {
    hide WellWritten, Print, Length, Opens;
    InnerIs(at + 2);
    assert "" + "b" + "" == "b";
    assert "b" + ['{'] + "c:d;" + "" + ['}'] == "b{c:d;}";
  }

  lemma FirstIs(blank: string)
    requires Blank(blank)
    ensures WellWrittenStyle(First(blank)) && PrintItem(ItemOf(First(blank))) == blank + "a{}"
    ensures OpensIn(ItemOf(First(blank)), 0) == [|blank| + 1] && Width(ItemOf(First(blank))) == |blank| + 3
  {
    assert blank + "a" + "" == blank + "a";
  }

  lemma TwoStylesAre(a: Style, b: Style)
    requires WellWrittenStyle(a) && WellWrittenStyle(b)
    ensures WellWritten(And(a, And(b, Done)))
    ensures Print(SheetOf(And(a, And(b, Done)))) == PrintItem(ItemOf(a)) + PrintItem(ItemOf(b))
    ensures Opens(SheetOf(And(a, And(b, Done))), 0) == OpensIn(ItemOf(a), 0) + OpensIn(ItemOf(b), Width(ItemOf(a)))
  {
    hide WellWrittenStyle, PrintItem, OpensIn, Width, ItemOf;
    assert WellWritten(And(b, Done));
    assert Print(SheetOf(And(b, Done))) == PrintItem(ItemOf(b)) + [];
    assert Opens(SheetOf(And(b, Done)), Width(ItemOf(a))) == OpensIn(ItemOf(b), Width(ItemOf(a))) + [];
  }

  lemma MarkedRulesAre(blank: string)
    requires Blank(blank)
    ensures WellWritten(MarkedRules(blank)) && Print(SheetOf(MarkedRules(blank))) == blank + TWO_RULES
    ensures Opens(SheetOf(MarkedRules(blank)), 0) == [|blank| + 1, |blank| + 4]
  {
    hide WellWritten, WellWrittenStyle, Print, PrintItem, Opens, OpensIn, Width, SheetOf, ItemOf;
    FirstIs(blank);
    SecondIs(|blank| + 3);
    TwoStylesAre(First(blank), SECOND);
    assert blank + "a{}" + "b{c:d;}" == blank + TWO_RULES;
  }

  lemma BlankedIsBlank(c: string)
    ensures Blank(Blanked(c) + Blanked(c)) && |Blanked(c) + Blanked(c)| == 2 * |c|
  {
  }

  /**
   Two marker comments before one rule: the second waits, and the declaration of the
   next rule is read as exempt though no marker stands between the two rules.
   */
  lemma SecondMarkerSpills(c: string, marks: string -> bool)
    requires IsComment(c) && marks(c)
    ensures var source := c + (c + TWO_RULES);
      var stripped := StripComments(source, marks);
      && Read(stripped.text, stripped.markers) == [Declaration("c", "d", LineOf(source, 2 * |c| + 5), true, ["b"])]
      && Firsts(Opens(SheetOf(MarkedRules(Blanked(c) + Blanked(c))), 0), stripped.markers, -1) == [true, false]
  {
    hide StripComments, Read, Declarations, Takes, Firsts, WellWritten, Opens, Print, SheetOf, MarkedRules;
    hide LineOf, Blank, Blanked;
    var blank := Blanked(c) + Blanked(c);
    TwoMarkers(c, marks);
    BlankedIsBlank(c);
    MarkedRulesAre(blank);
    SecondTakes(|c|);
    MarkedDeclarations(blank, c + (c + TWO_RULES));
    ReadsItsDeclarations(c + (c + TWO_RULES), marks, MarkedRules(blank), "");
  }

  /** The source: both comments, then the rules. */
  function Marked(c: string): Source {
    Commented("", c, Commented("", c, Tail(TWO_RULES)))
  }

  lemma OneCommentIs(c: string, next: Source, marks: string -> bool)
    requires IsComment(c) && marks(c) && Sound(next)
    ensures var d := Commented("", c, next);
      && Sound(d) && Written(d) == c + Written(next) && WithBlanks(d) == Blanked(c) + WithBlanks(next)
      && MarkerEnds(d, marks) == [|c|] + Shifted(MarkerEnds(next, marks), |c|)
  {
    hide IsComment, Shifted, Blanked;
    assert "" + (c + Written(next)) == c + Written(next);
    assert "" + (Blanked(c) + WithBlanks(next)) == Blanked(c) + WithBlanks(next);
  }

  lemma TwoMarkers(c: string, marks: string -> bool)
    requires IsComment(c) && marks(c)
    ensures StripComments(c + (c + TWO_RULES), marks)
         == Stripped(Blanked(c) + Blanked(c) + TWO_RULES + "", [|c|, 2 * |c|])
  {
    hide IsComment, Sound, Written, WithBlanks, MarkerEnds, StripComments, Blanked;
    var rules := Tail(TWO_RULES);
    RulesAreTail(marks);
    OneCommentIs(c, rules, marks);
    OneCommentIs(c, Commented("", c, rules), marks);
    StripsItsComments(Marked(c), marks);
    assert Shifted([], |c|) == [];
    assert [|c|] + [] == [|c|];
    assert Shifted([|c|], |c|) == [2 * |c|];
    assert Blanked(c) + (Blanked(c) + TWO_RULES) == Blanked(c) + Blanked(c) + TWO_RULES + "";
  }

  lemma RulesAreTail(marks: string -> bool)
    ensures var rules := Tail(TWO_RULES);
      Sound(rules) && Written(rules) == TWO_RULES && WithBlanks(rules) == TWO_RULES && MarkerEnds(rules, marks) == []
  {
    assert forall k: nat :: !OpensAt(TWO_RULES, k);
  }

  lemma SecondTakes(n: nat)
    requires n > 0
    ensures Takes([2 * n + 1, 2 * n + 4], [n, 2 * n]) == [true, true]
    ensures Firsts([2 * n + 1, 2 * n + 4], [n, 2 * n], -1) == [true, false]
  {
    var opens, markers := [2 * n + 1, 2 * n + 4], [n, 2 * n];
    assert opens[1..] == [2 * n + 4] && markers[1..] == [2 * n];
    assert Takes([2 * n + 4], [2 * n]) == [true] + Takes([], []);
    assert n in markers;
    assert Firsts([2 * n + 4], markers, 2 * n + 1) == [false] + Firsts([], markers, 2 * n + 4);
  }

  lemma InnerDeclares(source: string, at: nat)
    ensures Declarations(INNER, source, at, ["b"], true, []) == [Declaration("c", "d", LineOf(source, at), true, ["b"])]
  {
    hide LineOf;
  }

  lemma SecondDeclares(source: string, at: nat)
    ensures BlocksIn(ItemOf(SECOND)) == 1
    ensures DeclarationsOf(SECOND, source, at, [], false, [true])
         == [Declaration("c", "d", LineOf(source, at + 2), true, ["b"])]
  {
    hide Declarations, LineOf;
    InnerDeclares(source, at + 2);
    assert "" + "b" + "" == "b" && [] + ["b"] == ["b"];
    var one: seq<bool> := [true];
    assert one[1..] == [];
  }

  lemma FirstDeclaresNothing(source: string, blank: string)
    ensures BlocksIn(ItemOf(First(blank))) == 1 && Width(ItemOf(First(blank))) == |blank| + 3
    ensures DeclarationsOf(First(blank), source, 0, [], false, [true]) == []
  {
    assert |blank + "a" + ""| == |blank| + 1;
  }

  lemma TwoStylesDeclare(a: Style, b: Style, source: string)
    requires BlocksIn(ItemOf(a)) == 1 && BlocksIn(ItemOf(b)) == 1
    ensures Blocks(SheetOf(And(a, And(b, Done)))) == 2
    ensures Declarations(And(a, And(b, Done)), source, 0, [], false, [true, true])
         == DeclarationsOf(a, source, 0, [], false, [true]) + DeclarationsOf(b, source, Width(ItemOf(a)), [], false, [true])
  {
    hide DeclarationsOf, BlocksIn, Width, ItemOf;
    var one, two: seq<bool> := [true], [true, true];
    assert one[..1] == one && one[1..] == [] && two[..1] == one && two[1..] == one;
    assert Declarations(And(b, Done), source, Width(ItemOf(a)), [], false, one)
        == DeclarationsOf(b, source, Width(ItemOf(a)), [], false, one) + [];
  }

  lemma MarkedDeclarations(blank: string, source: string)
    ensures Blocks(SheetOf(MarkedRules(blank))) == 2
    ensures Declarations(MarkedRules(blank), source, 0, [], false, [true, true])
         == [Declaration("c", "d", LineOf(source, |blank| + 5), true, ["b"])]
  {
    hide Declarations, DeclarationsOf, Blocks, BlocksIn, Width, SheetOf, ItemOf, LineOf;
    FirstDeclaresNothing(source, blank);
    SecondDeclares(source, |blank| + 3);
    TwoStylesDeclare(First(blank), SECOND, source);
  }

  /** A comment of the kind the pattern looks for. */
  const MARKER: string := "/*" + " ui-style-exception: fixed-scheme " + "*/"

  lemma MarkerIsAComment()
    ensures IsComment(MARKER)
  {
    var body := " ui-style-exception: fixed-scheme ";
    assert forall k | 0 <= k < |body| :: body[k] != '*';
    BodyIsAComment(body);
  }

  lemma BodyIsAComment(body: string)
    requires forall k | 0 <= k < |body| :: body[k] != '*'
    ensures IsComment("/*" + body + "*/")
  {
    var c := "/*" + body + "*/";
    assert forall k | 0 <= k < |body| :: c[k + 2] == body[k];
    assert forall j: nat | 2 <= j < |c| - 2 :: c[j] == body[j - 2];
  }
}
