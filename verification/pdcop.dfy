/** The PDCOP component parser (`_get_pdcop_components` of `pdcop2yaml.py`):
    a `;`-separated text of clauses becomes decision and random variables with
    integer ranges, extensional constraints whose value tables group the
    assignments by utility, initial distributions and transition matrices. */
module Pdcop {
  import opened Wrappers
  import opened Errors
  import opened Text
  import opened Numerals
  import opened OrderedMaps

  // ===========================================================================
  // classification

  /** What a clause is, decided by the keywords it mentions. */
  datatype ClauseKind =
    | DecisionVariable
    | RandomVariable
    | ConstraintClause
    | DistributionClause
    | TransitionClause
    | Unrecognised

  /** The keyword tests in the order the loop makes them: `decision` or
      `random` first, then `constraint`, `initial_distribution`, `transition`.
      Each kind is taken by the clauses that mention its keyword and none of the
      keywords tested before it; a clause without any of them is unrecognised. */
  function Classify(clause: string): (k: ClauseKind)
    ensures k == DecisionVariable <==> Contains(clause, "decision")
    ensures k == RandomVariable <==> !Contains(clause, "decision") && Contains(clause, "random")
    ensures k == ConstraintClause
        <==> !Contains(clause, "decision") && !Contains(clause, "random") && Contains(clause, "constraint")
    ensures k == DistributionClause
        <==> !Contains(clause, "decision") && !Contains(clause, "random") && !Contains(clause, "constraint")
             && Contains(clause, "initial_distribution")
    ensures k == TransitionClause
        <==> !Contains(clause, "decision") && !Contains(clause, "random") && !Contains(clause, "constraint")
             && !Contains(clause, "initial_distribution") && Contains(clause, "transition")
    ensures k == Unrecognised
        <==> !Contains(clause, "decision") && !Contains(clause, "random") && !Contains(clause, "constraint")
             && !Contains(clause, "initial_distribution") && !Contains(clause, "transition")
  {
    if Contains(clause, "decision") then DecisionVariable
    else if Contains(clause, "random") then RandomVariable
    else if Contains(clause, "constraint") then ConstraintClause
    else if Contains(clause, "initial_distribution") then DistributionClause
    else if Contains(clause, "transition") then TransitionClause
    else Unrecognised
  }

  // ===========================================================================
  // variables

  /** The integers from `lo` to `hi`, both included; none when `lo > hi`. */
  function Range(lo: int, hi: int): (r: seq<int>)
    ensures |r| == if lo <= hi then hi - lo + 1 else 0
    ensures forall i :: 0 <= i < |r| ==> r[i] == lo + i
    decreases hi - lo
  {
    if lo > hi then [] else [lo] + Range(lo + 1, hi)
  }

  /** The bound pair: the right side evaluated as a list or tuple of integer
      literals, of which the first two are the bounds and any others are ignored. */
  function ParseBounds(text: string): (r: Result<(int, int), ParseError>)
    ensures r.Err? ==> r.error in {InvalidLiteral(text), MalformedClause(text)}
  {
    match ParseSequence(text, ParseIntToken)
    case None => Err(InvalidLiteral(text))
    case Some(b) => if |b| < 2 then Err(MalformedClause(text)) else Ok((b[0], b[1]))
  }

  /** What a clause contributes to the components. */
  datatype Item =
    | VariableItem(decision: bool, name: string, domain: seq<int>)
    | ConstraintItem(key: string, constraint: Extensional)
    | DistributionItem(variable: string, probabilities: seq<Decimal>)
    | TransitionItem(variable: string, matrix: seq<seq<Decimal>>)
    | Skipped

  /** An extensional constraint: its two variables and its value table, which
      maps a utility to the assignments that have it. */
  datatype Extensional = Extensional(variables: seq<string>, values: Assoc<int, seq<seq<int>>>)

  /** A `decision_x = (lo, hi)` or `random_x = (lo, hi)` clause: the name is the
      second `_`-token of the stripped left side, the domain the inclusive range. */
  function ParseVariable(clause: string, decision: bool): (r: Result<Item, ParseError>)
    ensures r.Ok? ==> r.value.VariableItem? && r.value.decision == decision
    ensures r.Ok? ==> var tokens := Split(Strip(Split(clause, '=')[0]), '_');
      |tokens| >= 2 && r.value.name == tokens[1]
    ensures '=' !in clause ==> r == Err(MalformedClause(clause))
  {
    var parts := Split(clause, '=');
    SplitCount(clause, '=');
    var tokens := Split(Strip(parts[0]), '_');
    if |tokens| < 2 || |parts| < 2 then Err(MalformedClause(clause))
    else
      var bounds :- ParseBounds(parts[1]);
      Ok(VariableItem(decision, tokens[1], Range(bounds.0, bounds.1)))
  }

  /** The bound pair reads back from a tuple, a list or a bare pair exactly when
      the whitespace around it is whitespace `eval` accepts; otherwise the
      literal is refused. */
  lemma BoundsRoundTrip(lo: int, hi: int, lead: string, trail: string)
    requires AllSpace(lead) && AllSpace(trail)
    ensures var text := lead + "(" + IntsText([lo, hi]) + ")" + trail;
      ParseBounds(text) == if EvalLead(lead) && Gap(trail, true) then Ok((lo, hi)) else Err(InvalidLiteral(text))
    ensures var text := lead + "[" + IntsText([lo, hi]) + "]" + trail;
      ParseBounds(text) == if EvalLead(lead) && Gap(trail, true) then Ok((lo, hi)) else Err(InvalidLiteral(text))
    ensures var text := lead + IntsText([lo, hi]) + trail;
      ParseBounds(text) == if EvalLead(lead) && Gap(trail, true) then Ok((lo, hi)) else Err(InvalidLiteral(text))
  {
    TupleRoundTrip([lo, hi], lead, trail);
    ListRoundTrip([lo, hi], lead, trail);
    BareTupleRoundTrip([lo, hi], lead, trail);
  }

  lemma BoundsTextRead(lo: int, hi: int)
    ensures ParseBounds(BoundsText(lo, hi)) == Ok((lo, hi))
  {
    assert BoundsText(lo, hi) == " " + "(" + IntsText([lo, hi]) + ")" + "";
    TupleRoundTrip([lo, hi], " ", "");
  }

  /** The keyword that opens a variable clause of the given kind. */
  function Keyword(decision: bool): string {
    if decision then "decision" else "random"
  }

  /** The clause `decision_name = (lo,hi)` or `random_name = (lo,hi)` declaring
      variable `name` over `lo..hi`, as a `.dzn` file writes it: `lead` is the
      whitespace (a line break, say) after the previous `;`. */
  function VariableClause(decision: bool, name: string, lo: int, hi: int, lead: string): string {
    VariableLeft(decision, name, lead) + "=" + BoundsText(lo, hi)
  }

  function VariableLeft(decision: bool, name: string, lead: string): string {
    lead + Keyword(decision) + "_" + name + " "
  }

  function BoundsText(lo: int, hi: int): string {
    " (" + IntsText([lo, hi]) + ")"
  }

  lemma VariableClauseSides(decision: bool, name: string, lo: int, hi: int, lead: string)
    requires '=' !in name && AllSpace(lead)
    ensures Split(VariableClause(decision, name, lo, hi, lead), '=')
         == [VariableLeft(decision, name, lead), BoundsText(lo, hi)]
  {
    assert '=' !in BoundsText(lo, hi) by {
      IntsTextFree([lo, hi], '=');
    }
    assert '=' !in VariableLeft(decision, name, lead) by {
      SpaceFree(lead, '=');
    }
    SplitTwo(VariableLeft(decision, name, lead), '=', BoundsText(lo, hi));
  }

  lemma VariableLeftSide(decision: bool, name: string, lead: string)
    requires Trimmed(name) && AllSpace(lead)
    ensures Strip(VariableLeft(decision, name, lead)) == Keyword(decision) + "_" + name
  {
    var t := Keyword(decision) + "_" + name;
    assert Trimmed(t);
    assert VariableLeft(decision, name, lead) == lead + t + " ";
    StripPadded(lead, t, " ");
  }

  lemma VariableNameTokens(decision: bool, name: string)
    requires '_' !in name
    ensures Split(Keyword(decision) + "_" + name, '_') == [Keyword(decision), name]
  {
    assert Keyword(decision) + "_" + name == Keyword(decision) + ['_'] + name;
    SplitTwo(Keyword(decision), '_', name);
  }

  /** A clause with one `=` whose bounds read is the variable its left side names. */
  lemma ParseVariableParts(clause: string, lhs: string, rhs: string, decision: bool)
    requires Split(clause, '=') == [lhs, rhs]
    requires |Split(Strip(lhs), '_')| >= 2 && ParseBounds(rhs).Ok?
    ensures ParseVariable(clause, decision)
         == Ok(VariableItem(decision, Split(Strip(lhs), '_')[1],
                            Range(ParseBounds(rhs).value.0, ParseBounds(rhs).value.1)))
  {
  }

  /** A written variable clause reads back as that variable over `lo..hi`; the
      whitespace around the name and the bounds is stripped. */
  lemma VariableRoundTrip(decision: bool, name: string, lo: int, hi: int, lead: string)
    requires '=' !in name && '_' !in name && Trimmed(name) && AllSpace(lead)
    ensures ParseVariable(VariableClause(decision, name, lo, hi, lead), decision)
         == Ok(VariableItem(decision, name, Range(lo, hi)))
  {
    VariableClauseSides(decision, name, lo, hi, lead);
    VariableLeftSide(decision, name, lead);
    VariableNameTokens(decision, name);
    BoundsTextRead(lo, hi);
    ParseVariableParts(VariableClause(decision, name, lo, hi, lead), VariableLeft(decision, name, lead),
                       BoundsText(lo, hi), decision);
  }

  /** A decision clause is classified by its keyword; so is a random clause that
      does not mention `decision` anywhere (its name, say), which would win. */
  lemma VariableClauseKind(decision: bool, name: string, lo: int, hi: int, lead: string)
    requires decision || !Contains(VariableClause(decision, name, lo, hi, lead), "decision")
    ensures Classify(VariableClause(decision, name, lo, hi, lead))
         == if decision then DecisionVariable else RandomVariable
  {
    VariableClauseMentions(decision, name, lo, hi, lead);
    KeywordKind(VariableClause(decision, name, lo, hi, lead), decision);
  }

  lemma VariableClauseMentions(decision: bool, name: string, lo: int, hi: int, lead: string)
    ensures Contains(VariableClause(decision, name, lo, hi, lead), Keyword(decision))
  {
    var k := Keyword(decision);
    ContainsAt(lead + k, lead, k, []);
    ContainsExtend(lead + k, k, "_");
    ContainsExtend(lead + k + "_", k, name);
    ContainsExtend(lead + k + "_" + name, k, " ");
    ContainsExtend(VariableLeft(decision, name, lead), k, "=");
    ContainsExtend(VariableLeft(decision, name, lead) + "=", k, BoundsText(lo, hi));
  }

  /** A clause mentioning a variable keyword, and no earlier one, is classified by it. */
  lemma KeywordKind(clause: string, decision: bool)
    requires Contains(clause, Keyword(decision))
    requires decision || !Contains(clause, "decision")
    ensures Classify(clause) == if decision then DecisionVariable else RandomVariable
  {
  }

  // ===========================================================================
  // constraints

  /** The value-table entries of a right side: stripped of whitespace, then of one
      leading `[` and one trailing `]` where present, then cut at every `|`. */
  function Segments(rhs: string): seq<string> {
    Split(RemoveSuffix(RemovePrefix(Strip(rhs), "["), "]"), '|')
  }

  /** A field evaluated as an integer literal, raising on anything else. */
  function LiteralValue(text: string): Result<int, ParseError> {
    OrFail(ParseIntLiteral(text), InvalidLiteral(text))
  }

  /** One value-table entry `v1,v2,u`: the last field is the utility, the
      fields before it the assignment. The utility is read first. */
  function ParseEntry(entry: string): (r: Result<(int, seq<int>), ParseError>)
    ensures r.Ok? ==> |r.value.1| == multiset(Strip(entry))[',']
  {
    var fields := Split(Strip(entry), ',');
    SplitCount(Strip(entry), ',');
    var utility :- LiteralValue(Last(fields));
    var values :- MapResults(fields[..|fields| - 1], LiteralValue);
    Ok((utility, values))
  }

  lemma ParseEntryParts(entry: string, init: seq<string>, last: string, utility: int, values: seq<int>)
    requires Split(Strip(entry), ',') == init + [last]
    requires LiteralValue(last) == Ok(utility)
    requires MapResults(init, LiteralValue) == Ok(values)
    ensures ParseEntry(entry) == Ok((utility, values))
  {
    var fields := init + [last];
    assert fields[..|fields| - 1] == init;
  }

  /** The entry `v1,...,vn,u` written from an assignment and its utility reads back as both. */
  lemma EntryRoundTrip(values: seq<int>, utility: int)
    ensures ParseEntry(IntsText(values + [utility])) == Ok((utility, values))
  {
    var xs := values + [utility];
    var entry := IntsText(xs);
    assert Split(Strip(entry), ',') == IntTexts(values) + [IntToString(utility)] by {
      IntsTextTrimmed(xs);
      StripTrimmed(entry);
      IntsTextRoundTrip(xs);
      assert IntTexts(xs) == IntTexts(values) + [IntToString(utility)];
    }
    assert LiteralValue(IntToString(utility)) == Ok(utility) by {
      IntTextFacts(utility);
    }
    assert MapResults(IntTexts(values), LiteralValue) == Ok(values) by {
      IntTextsFacts(values);
      MapResultsPointwise(IntTexts(values), LiteralValue, values);
    }
    ParseEntryParts(entry, IntTexts(values), IntToString(utility), utility, values);
  }

  /** The entries that are not blank, in order; blank ones are skipped. */
  function NonBlank(entries: seq<string>): (r: seq<string>)
    ensures |r| <= |entries|
    ensures forall i :: 0 <= i < |r| ==> !IsBlank(r[i]) && r[i] in entries
    ensures forall i :: 0 <= i < |entries| && !IsBlank(entries[i]) ==> entries[i] in r
  {
    if |entries| == 0 then []
    else
      var n := |entries| - 1;
      var prev := NonBlank(entries[..n]);
      assert forall i :: 0 <= i < n ==> entries[..n][i] == entries[i];
      if IsBlank(entries[n]) then prev else prev + [entries[n]]
  }

  /** Every non-blank entry read, stopping at the first that is not a literal tuple. */
  function ParseEntries(entries: seq<string>): Result<seq<(int, seq<int>)>, ParseError> {
    MapResults(NonBlank(entries), ParseEntry)
  }

  /** Entries none of which is blank are all kept. */
  lemma {:induction false} NonBlankKeepsAll(entries: seq<string>)
    requires forall i :: 0 <= i < |entries| ==> !IsBlank(entries[i])
    ensures NonBlank(entries) == entries
  {
    if |entries| > 0 {
      var n := |entries| - 1;
      var init := entries[..n];
      assert forall i :: 0 <= i < |init| ==> !IsBlank(init[i]) by {
        assert forall i :: 0 <= i < n ==> init[i] == entries[i];
      }
      NonBlankKeepsAll(init);
      NonBlankSnoc(entries);
      InitAndLast(entries);
    }
  }

  lemma InitAndLast<T>(s: seq<T>)
    requires |s| > 0
    ensures s[..|s| - 1] + [s[|s| - 1]] == s
  {
  }

  lemma NonBlankSnoc(entries: seq<string>)
    requires |entries| > 0 && !IsBlank(entries[|entries| - 1])
    ensures NonBlank(entries) == NonBlank(entries[..|entries| - 1]) + [entries[|entries| - 1]]
  {
  }

  /** Filtering a concatenation filters each part and keeps them in order ... */
  lemma {:induction false} NonBlankConcat(a: seq<string>, b: seq<string>)
    ensures NonBlank(a + b) == NonBlank(a) + NonBlank(b)
    decreases |b|
  {
    if |b| == 0 {
      assert a + b == a;
    } else {
      var n := |b| - 1;
      var tail := if IsBlank(b[n]) then [] else [b[n]];
      assert NonBlank(a + b) == NonBlank(a + b[..n]) + tail by {
        NonBlankStep(a + b);
        ConcatInitLast(a, b);
      }
      NonBlankStep(b);
      NonBlankConcat(a, b[..n]);
      SeqAssoc(NonBlank(a), NonBlank(b[..n]), tail);
    }
  }

  lemma NonBlankStep(entries: seq<string>)
    requires |entries| > 0
    ensures var n := |entries| - 1;
      NonBlank(entries) == NonBlank(entries[..n]) + if IsBlank(entries[n]) then [] else [entries[n]]
  {
  }

  lemma ConcatInitLast<T>(a: seq<T>, b: seq<T>)
    requires |b| > 0
    ensures (a + b)[..|a + b| - 1] == a + b[..|b| - 1] && (a + b)[|a + b| - 1] == b[|b| - 1]
  {
    assert (a + b)[..|a + b| - 1] == a + b[..|b| - 1];
  }

  lemma SeqAssoc<T>(x: seq<T>, y: seq<T>, z: seq<T>)
    ensures x + y + z == x + (y + z)
  {
  }

  /** ... and a single entry is kept exactly when it is not blank, so the entries
      kept are the non-blank ones, each as often as it occurs, in input order. */
  lemma NonBlankSingle(e: string)
    ensures NonBlank([e]) == if IsBlank(e) then [] else [e]
  {
    assert [e][..0] == [];
  }

  /** The entry text of one assignment and its utility, `v1,...,vn,u`. */
  function EntryText(row: (int, seq<int>)): string {
    IntsText(row.1 + [row.0])
  }

  /** The entry texts of the rows, in order. */
  function EntryTexts(rows: seq<(int, seq<int>)>): (texts: seq<string>)
    ensures |texts| == |rows|
    ensures forall i :: 0 <= i < |rows| ==> texts[i] == EntryText(rows[i])
  {
    seq(|rows|, i requires 0 <= i < |rows| => EntryText(rows[i]))
  }

  /** The right side of a constraint clause holding the rows: each entry closed
      by `|`, the whole in brackets, `[1,2,5|3,4,6|]`. */
  function TableText(rows: seq<(int, seq<int>)>): string {
    "[" + Join(EntryTexts(rows) + [""], '|') + "]"
  }

  /** A rendered entry is neither blank nor holds the separators around it. */
  lemma EntryTextFacts(row: (int, seq<int>))
    ensures !IsBlank(EntryText(row))
    ensures '|' !in EntryText(row) && '=' !in EntryText(row) && ']' !in EntryText(row)
    ensures ParseEntry(EntryText(row)) == Ok(row)
  {
    var xs := row.1 + [row.0];
    IntsTextTrimmed(xs);
    StripTrimmed(IntsText(xs));
    IntsTextFree(xs, '|');
    IntsTextFree(xs, '=');
    IntsTextFree(xs, ']');
    EntryRoundTrip(row.1, row.0);
  }

  lemma TableTextShape(rows: seq<(int, seq<int>)>)
    ensures var body := Join(EntryTexts(rows) + [""], '|');
      && ']' !in body && '=' !in body
      && Split(body, '|') == EntryTexts(rows) + [""]
  {
    var pieces := EntryTexts(rows) + [""];
    forall i | 0 <= i < |pieces|
      ensures '|' !in pieces[i] && ']' !in pieces[i] && '=' !in pieces[i]
    {
      if i < |rows| {
        EntryTextFacts(rows[i]);
      }
    }
    SplitJoin(pieces, '|');
    JoinFree(pieces, '|', ']');
    JoinFree(pieces, '|', '=');
  }

  /** The entries of a written value table, whatever whitespace surrounds it. */
  lemma TableSegments(rows: seq<(int, seq<int>)>, lead: string, trail: string)
    requires AllSpace(lead) && AllSpace(trail)
    ensures Segments(lead + TableText(rows) + trail) == EntryTexts(rows) + [""]
  {
    var body := Join(EntryTexts(rows) + [""], '|');
    var t := TableText(rows);
    assert Strip(lead + t + trail) == t by {
      assert Trimmed(t);
      StripPadded(lead, t, trail);
    }
    Unbracket(body);
    TableTextShape(rows);
  }

  /** Removing the brackets around a text gives back the text. */
  lemma Unbracket(body: string)
    ensures RemoveSuffix(RemovePrefix("[" + body + "]", "["), "]") == body
  {
    var unopened := RemovePrefix("[" + body + "]", "[");
    assert unopened == body + "]";
    assert unopened[|unopened| - 1..] == "]";
  }

  /** A written value table reads back as exactly its rows, in order. */
  lemma TableRoundTrip(rows: seq<(int, seq<int>)>, lead: string, trail: string)
    requires AllSpace(lead) && AllSpace(trail)
    ensures ParseEntries(Segments(lead + TableText(rows) + trail)) == Ok(rows)
  {
    var texts := EntryTexts(rows);
    TableSegments(rows, lead, trail);
    assert IsBlank("") by { StripTrimmed(""); }
    forall i | 0 <= i < |texts|
      ensures !IsBlank(texts[i]) && ParseEntry(texts[i]) == Ok(rows[i])
    {
      EntryTextFacts(rows[i]);
    }
    NonBlankKeepsAll(texts);
    assert (texts + [""])[..|texts|] == texts;
    MapResultsPointwise(texts, ParseEntry, rows);
  }

  /** The group of a utility after an assignment is added: the existing group
      extended at its end, or a new group holding only that assignment. */
  function Appended(group: Option<seq<seq<int>>>, values: seq<int>): seq<seq<int>> {
    match group
    case Some(g) => g + [values]
    case None => [values]
  }

  /** The value table: each assignment appended to the group of its utility,
      a new utility opening a group after the existing ones. */
  function GroupByUtility(rows: seq<(int, seq<int>)>): Assoc<int, seq<seq<int>>> {
    if |rows| == 0 then []
    else
      var prev := GroupByUtility(rows[..|rows| - 1]);
      var last := rows[|rows| - 1];
      Put(prev, last.0, Appended(Get(prev, last.0), last.1))
  }

  /** The assignments with utility `u`, in order. */
  function Matching(rows: seq<(int, seq<int>)>, u: int): seq<seq<int>> {
    if |rows| == 0 then []
    else
      var prev := Matching(rows[..|rows| - 1], u);
      if rows[|rows| - 1].0 == u then prev + [rows[|rows| - 1].1] else prev
  }

  /** No assignment has a utility that does not occur. */
  lemma {:induction false} MatchingAbsent(rows: seq<(int, seq<int>)>, u: int)
    requires !HasKey(rows, u)
    ensures Matching(rows, u) == []
  {
    if |rows| > 0 {
      HasKeyInit(rows, u);
      MatchingAbsent(rows[..|rows| - 1], u);
    }
  }

  /** Each utility that occurs maps to exactly its assignments in input order. */
  lemma {:induction false} GroupGet(rows: seq<(int, seq<int>)>, u: int)
    ensures Get(GroupByUtility(rows), u) == if HasKey(rows, u) then Some(Matching(rows, u)) else None
  {
    if |rows| > 0 {
      var n := |rows| - 1;
      var init := rows[..n];
      var prev := GroupByUtility(init);
      var group := Appended(Get(prev, rows[n].0), rows[n].1);
      assert GroupByUtility(rows) == Put(prev, rows[n].0, group);
      GroupGet(init, u);
      HasKeyInit(rows, u);
      if rows[n].0 == u {
        if !HasKey(init, u) {
          MatchingAbsent(init, u);
        }
        assert group == Matching(init, u) + [rows[n].1];
      } else {
        PutOther(prev, rows[n].0, group, u);
      }
    }
  }

  /** Utilities appear in the table in the order of their first assignment. */
  lemma {:induction false} GroupKeys(rows: seq<(int, seq<int>)>)
    ensures Keys(GroupByUtility(rows)) == Dedup(Keys(rows))
  {
    if |rows| > 0 {
      var n := |rows| - 1;
      var init := rows[..n];
      var prev := GroupByUtility(init);
      var group := Appended(Get(prev, rows[n].0), rows[n].1);
      assert GroupByUtility(rows) == Put(prev, rows[n].0, group);
      GroupKeys(init);
      KeysPrefix(rows, n);
      HasKeyKeys(prev, rows[n].0);
      if HasKey(prev, rows[n].0) {
        PutKeys(prev, rows[n].0, group);
      } else {
        KeysSnoc(prev, (rows[n].0, group));
      }
    }
  }

  /** How many assignments a value table holds over all its groups. */
  function Total(table: Assoc<int, seq<seq<int>>>): nat {
    if |table| == 0 then 0 else |table[0].1| + Total(table[1..])
  }

  function GroupSize(group: Option<seq<seq<int>>>): nat {
    match group
    case Some(g) => |g|
    case None => 0
  }

  /** Replacing a group changes the total by the difference in size. */
  lemma {:induction false} TotalPut(table: Assoc<int, seq<seq<int>>>, u: int, group: seq<seq<int>>)
    ensures Total(Put(table, u, group)) + GroupSize(Get(table, u)) == Total(table) + |group|
  {
    if |table| > 0 && table[0].0 != u {
      TotalPut(table[1..], u, group);
    }
  }

  /** Grouping loses and duplicates no assignment. */
  lemma {:induction false} GroupTotal(rows: seq<(int, seq<int>)>)
    ensures Total(GroupByUtility(rows)) == |rows|
  {
    if |rows| > 0 {
      var n := |rows| - 1;
      var prev := GroupByUtility(rows[..n]);
      var group := Appended(Get(prev, rows[n].0), rows[n].1);
      GroupTotal(rows[..n]);
      TotalPut(prev, rows[n].0, group);
    }
  }

  /** A `constraint_x_y = [v,w,u | ...]` clause: its left side, stripped, must cut
      into exactly three `_`-tokens, the last two naming the constrained variables,
      and the whole stripped left side is the key it is filed under. */
  function ParseConstraintClause(clause: string): (r: Result<Item, ParseError>)
    ensures '=' !in clause ==> r == Err(MalformedClause(clause))
    ensures r.Ok? ==> r.value.ConstraintItem? && |r.value.constraint.variables| == 2
  {
    var parts := Split(clause, '=');
    SplitCount(clause, '=');
    var lhs := Strip(parts[0]);
    var tokens := Split(lhs, '_');
    if |tokens| != 3 || |parts| < 2 then Err(MalformedClause(clause))
    else
      var rows :- ParseEntries(Segments(parts[1]));
      Ok(ConstraintItem(lhs, Extensional([tokens[1], tokens[2]], GroupByUtility(rows))))
  }

  /** A constraint is filed under its whole stripped left side and constrains the
      variables named by the last two `_`-tokens of that side. */
  lemma ConstraintClauseKey(clause: string)
    requires ParseConstraintClause(clause).Ok?
    ensures ParseConstraintClause(clause).value.key == Strip(Split(clause, '=')[0])
    ensures var key := ParseConstraintClause(clause).value.key;
      |Split(key, '_')| == 3 && ParseConstraintClause(clause).value.constraint.variables == Split(key, '_')[1..]
  {
    var parts := Split(clause, '=');
    SplitCount(clause, '=');
    var lhs := Strip(parts[0]);
    var tokens := Split(lhs, '_');
    assert |tokens| == 3 && |parts| >= 2;
    var rows := ParseEntries(Segments(parts[1])).value;
    assert ParseConstraintClause(clause) == Ok(ConstraintItem(lhs, Extensional([tokens[1], tokens[2]], GroupByUtility(rows))));
    TailOfThree(tokens);
  }

  lemma TailOfThree<T>(s: seq<T>)
    requires |s| == 3
    ensures s[1..] == [s[1], s[2]]
  {
  }

  /** The value table of a constraint holds one assignment per non-blank entry. */
  lemma ConstraintTotal(clause: string)
    requires ParseConstraintClause(clause).Ok?
    ensures Total(ParseConstraintClause(clause).value.constraint.values)
         == |NonBlank(Segments(Split(clause, '=')[1]))|
  {
    SplitCount(clause, '=');
    var rows := ParseEntries(Segments(Split(clause, '=')[1])).value;
    GroupTotal(rows);
  }

  /** The clause constraining `x` and `y` with the value table of `rows`, as a
      `.dzn` file writes it after the whitespace `lead`. */
  function ConstraintClauseText(x: string, y: string, rows: seq<(int, seq<int>)>, lead: string): string {
    ConstraintLeft(x, y, lead) + "=" + " " + TableText(rows)
  }

  function ConstraintLeft(x: string, y: string, lead: string): string {
    lead + "constraint_" + x + "_" + y + " "
  }

  lemma ConstraintClauseSides(x: string, y: string, rows: seq<(int, seq<int>)>, lead: string)
    requires '=' !in x && '=' !in y && AllSpace(lead)
    ensures Split(ConstraintClauseText(x, y, rows, lead), '=') == [ConstraintLeft(x, y, lead), " " + TableText(rows)]
  {
    var rhs := " " + TableText(rows);
    assert '=' !in rhs by {
      TableTextShape(rows);
    }
    assert '=' !in ConstraintLeft(x, y, lead) by {
      SpaceFree(lead, '=');
    }
    SeqAssoc(ConstraintLeft(x, y, lead) + "=", " ", TableText(rows));
    SplitTwo(ConstraintLeft(x, y, lead), '=', rhs);
  }

  lemma ConstraintLeftSide(x: string, y: string, lead: string)
    requires Trimmed(y) && AllSpace(lead)
    ensures Strip(ConstraintLeft(x, y, lead)) == "constraint_" + x + "_" + y
  {
    var key := "constraint_" + x + "_" + y;
    assert Trimmed(key);
    assert ConstraintLeft(x, y, lead) == lead + key + " ";
    StripPadded(lead, key, " ");
  }

  lemma ConstraintKeyTokens(x: string, y: string)
    requires '_' !in x && '_' !in y
    ensures Split("constraint_" + x + "_" + y, '_') == ["constraint", x, y]
  {
    assert "constraint_" + x + "_" + y == "constraint" + ['_'] + x + ['_'] + y;
    SplitThree("constraint", '_', x, y);
  }

  /** A clause whose stripped left side cuts into `constraint`, `x`, `y` is filed
      under that stripped left side, constrains `x` and `y`, and fails only when
      its entries do. */
  lemma ConstraintClauseParts(clause: string, lhs: string, rhs: string, x: string, y: string)
    requires Split(clause, '=') == [lhs, rhs]
    requires Split(Strip(lhs), '_') == ["constraint", x, y]
    ensures ParseEntries(Segments(rhs)).Err? ==> ParseConstraintClause(clause) == Err(ParseEntries(Segments(rhs)).error)
    ensures ParseEntries(Segments(rhs)).Ok? ==>
      ParseConstraintClause(clause)
        == Ok(ConstraintItem(Strip(lhs), Extensional([x, y], GroupByUtility(ParseEntries(Segments(rhs)).value))))
  {
    var parts := Split(clause, '=');
    assert parts[0] == lhs && parts[1] == rhs && |parts| == 2;
    var tokens := Split(Strip(lhs), '_');
    assert |tokens| == 3 && tokens[1] == x && tokens[2] == y;
  }

  /** A written constraint clause reads back as its two variables and the rows
      grouped by utility, filed under the left side without its whitespace. */
  lemma ConstraintClauseRoundTrip(x: string, y: string, rows: seq<(int, seq<int>)>, lead: string)
    requires '=' !in x && '=' !in y && '_' !in x && '_' !in y && Trimmed(y) && AllSpace(lead)
    ensures ParseConstraintClause(ConstraintClauseText(x, y, rows, lead))
         == Ok(ConstraintItem("constraint_" + x + "_" + y, Extensional([x, y], GroupByUtility(rows))))
  {
    var lhs := ConstraintLeft(x, y, lead);
    var rhs := " " + TableText(rows);
    ConstraintClauseSides(x, y, rows, lead);
    ConstraintLeftSide(x, y, lead);
    ConstraintKeyTokens(x, y);
    assert rhs == " " + TableText(rows) + "";
    TableRoundTrip(rows, " ", "");
    ConstraintClauseParts(ConstraintClauseText(x, y, rows, lead), lhs, rhs, x, y);
  }

  /** A constraint clause that mentions neither variable keyword is classified by its own. */
  lemma ConstraintClauseKind(x: string, y: string, rows: seq<(int, seq<int>)>, lead: string)
    requires !Contains(ConstraintClauseText(x, y, rows, lead), "decision")
    requires !Contains(ConstraintClauseText(x, y, rows, lead), "random")
    ensures Classify(ConstraintClauseText(x, y, rows, lead)) == ConstraintClause
  {
    var clause := ConstraintClauseText(x, y, rows, lead);
    ConstraintClauseMentions(x, y, rows, lead);
    ConstraintKind(clause);
  }

  lemma ConstraintClauseMentions(x: string, y: string, rows: seq<(int, seq<int>)>, lead: string)
    ensures Contains(ConstraintClauseText(x, y, rows, lead), "constraint")
  {
    var k := "constraint";
    var s := lead + "constraint_";
    ContainsAt(s, lead, k, "_");
    ContainsExtend(s, k, x);
    ContainsExtend(s + x, k, "_");
    ContainsExtend(s + x + "_", k, y);
    ContainsExtend(s + x + "_" + y, k, " ");
    ContainsExtend(ConstraintLeft(x, y, lead), k, "=");
    ContainsExtend(ConstraintLeft(x, y, lead) + "=", k, " ");
    ContainsExtend(ConstraintLeft(x, y, lead) + "=" + " ", k, TableText(rows));
  }

  /** A clause mentioning `constraint` and neither variable keyword is a constraint. */
  lemma ConstraintKind(clause: string)
    requires Contains(clause, "constraint")
    requires !Contains(clause, "decision") && !Contains(clause, "random")
    ensures Classify(clause) == ConstraintClause
  {
  }

  // ===========================================================================
  // initial distributions and transition matrices

  /** The variable a distribution or matrix belongs to: the last `_`-token of the left side. */
  function Subject(lhs: string): string {
    Last(Split(lhs, '_'))
  }

  /** Whatever precedes it, the text after the last `_` names the variable. */
  lemma SubjectOf(prefix: string, name: string)
    requires '_' !in name
    ensures Subject(prefix + "_" + name) == name
  {
    assert prefix + "_" + name == prefix + ['_'] + name;
    SplitLast(prefix, '_', name);
  }

  /** An `initial_distribution_x = [p, ...]` clause: the right side evaluated as a
      list or tuple of numbers, filed under the last `_`-token of the left side. */
  function ParseDistribution(clause: string): (r: Result<Item, ParseError>)
    ensures '=' !in clause ==> r == Err(MalformedClause(clause))
    ensures r.Ok? ==> r.value.DistributionItem?
    ensures r.Ok? ==> r.value.variable == Subject(Split(Strip(clause), '=')[0])
  {
    var parts := Split(Strip(clause), '=');
    SplitCount(Strip(clause), '=');
    StripKeeps(clause, '=');
    if |parts| < 2 then
      Err(MalformedClause(clause))
    else
      match ParseSequence(parts[1], ParseDecimal)
      case None => Err(InvalidLiteral(parts[1]))
      case Some(probabilities) => Ok(DistributionItem(Subject(parts[0]), probabilities))
  }

  /** The numbers of one matrix row: the segment read as the body of a list display. */
  function ParseRow(row: string): Result<seq<Decimal>, ParseError> {
    OrFail(ParseItems(row, ParseDecimal, true), InvalidLiteral(row))
  }

  /** A `transition_x = [r1 | r2 | ... |]` clause: every segment but the last is a
      row, and the matrix is filed under the last `_`-token of the left side. */
  function ParseTransition(clause: string): (r: Result<Item, ParseError>)
    ensures '=' !in clause ==> r == Err(MalformedClause(clause))
    ensures r.Ok? ==> r.value.TransitionItem?
    ensures r.Ok? ==> r.value.variable == Subject(Split(Strip(clause), '=')[0])
    ensures r.Ok? ==> var parts := Split(Strip(clause), '=');
      |parts| >= 2 && |r.value.matrix| == |Segments(parts[1])| - 1
  {
    var parts := Split(Strip(clause), '=');
    SplitCount(Strip(clause), '=');
    StripKeeps(clause, '=');
    if |parts| < 2 then
      Err(MalformedClause(clause))
    else
      var segments := Segments(parts[1]);
      var matrix :- MapResults(segments[..|segments| - 1], ParseRow);
      Ok(TransitionItem(Subject(parts[0]), matrix))
  }

  // ===========================================================================
  // the components

  /** A clause read according to its kind: what it contributes is of the kind its
      keywords select, and an unrecognised clause contributes nothing. */
  function ParseClause(clause: string): (r: Result<Item, ParseError>)
    ensures Classify(clause) == Unrecognised <==> r == Ok(Skipped)
    ensures r.Ok? ==> (r.value.VariableItem? <==> Classify(clause) in {DecisionVariable, RandomVariable})
    ensures r.Ok? && r.value.VariableItem? ==> (r.value.decision <==> Classify(clause) == DecisionVariable)
    ensures r.Ok? ==> (r.value.ConstraintItem? <==> Classify(clause) == ConstraintClause)
    ensures r.Ok? ==> (r.value.DistributionItem? <==> Classify(clause) == DistributionClause)
    ensures r.Ok? ==> (r.value.TransitionItem? <==> Classify(clause) == TransitionClause)
  {
    match Classify(clause)
    case DecisionVariable => ParseVariable(clause, true)
    case RandomVariable => ParseVariable(clause, false)
    case ConstraintClause => ParseConstraintClause(clause)
    case DistributionClause => ParseDistribution(clause)
    case TransitionClause => ParseTransition(clause)
    case Unrecognised => Ok(Skipped)
  }

  /** The dictionary of components the parser returns. */
  datatype Components = Components(
    decisionVars: seq<(string, seq<int>)>,
    randomVars: seq<(string, seq<int>)>,
    constraints: Assoc<string, Extensional>,
    distributions: Assoc<string, seq<Decimal>>,
    transitions: Assoc<string, seq<seq<Decimal>>>)

  /** The effect of one clause on the dictionary. */
  function AddItem(c: Components, item: Item): Components {
    match item
    case VariableItem(decision, name, domain) =>
      if decision then c.(decisionVars := c.decisionVars + [(name, domain)])
      else c.(randomVars := c.randomVars + [(name, domain)])
    case ConstraintItem(key, constraint) => c.(constraints := Put(c.constraints, key, constraint))
    case DistributionItem(variable, probabilities) =>
      c.(distributions := Put(c.distributions, variable, probabilities))
    case TransitionItem(variable, matrix) => c.(transitions := Put(c.transitions, variable, matrix))
    case Skipped => c
  }

  /** The dictionary after the clauses' effects in order, starting from empty lists and tables. */
  function Assemble(items: seq<Item>): Components {
    if |items| == 0 then Components([], [], [], [], [])
    else AddItem(Assemble(items[..|items| - 1]), items[|items| - 1])
  }

  /** The whole text: `;`-separated clauses, the first malformed one aborting. */
  function ParseComponents(text: string): Result<Components, ParseError> {
    var items :- MapResults(Split(text, ';'), ParseClause);
    Ok(Assemble(items))
  }

  // ---------------------------------------------------------------------------
  // each part of the dictionary on its own

  /** The variables of the given kind, in clause order. */
  function VariablesOf(items: seq<Item>, decision: bool): seq<(string, seq<int>)> {
    if |items| == 0 then []
    else
      var prev := VariablesOf(items[..|items| - 1], decision);
      var item := items[|items| - 1];
      if item.VariableItem? && item.decision == decision then prev + [(item.name, item.domain)] else prev
  }

  /** The dictionary assignment a clause makes to one of the three tables, if any. */
  function ConstraintEntry(item: Item): Option<(string, Extensional)> {
    if item.ConstraintItem? then Some((item.key, item.constraint)) else None
  }

  function DistributionEntry(item: Item): Option<(string, seq<Decimal>)> {
    if item.DistributionItem? then Some((item.variable, item.probabilities)) else None
  }

  function TransitionEntry(item: Item): Option<(string, seq<seq<Decimal>>)> {
    if item.TransitionItem? then Some((item.variable, item.matrix)) else None
  }

  /** The assignments the clauses make to one table, in clause order. */
  function Entries<V>(items: seq<Item>, entry: Item -> Option<(string, V)>): seq<(string, V)> {
    if |items| == 0 then []
    else
      var prev := Entries(items[..|items| - 1], entry);
      var e := entry(items[|items| - 1]);
      if e.Some? then prev + [e.value] else prev
  }

  /** Both variable lists hold exactly their clauses' variables, in clause order. */
  lemma {:induction false} AssembleVariables(items: seq<Item>)
    ensures Assemble(items).decisionVars == VariablesOf(items, true)
    ensures Assemble(items).randomVars == VariablesOf(items, false)
  {
    if |items| > 0 {
      AssembleVariables(items[..|items| - 1]);
    }
  }

  /** A table after one assignment, or untouched when the clause makes none. */
  function Assign<V>(table: Assoc<string, V>, e: Option<(string, V)>): Assoc<string, V> {
    match e
    case Some(p) => Put(table, p.0, p.1)
    case None => table
  }

  /** A table that starts empty and that each clause changes by its own assignment
      is the dictionary of those assignments in clause order. */
  lemma {:induction false} AssembleTable<V>(items: seq<Item>, entry: Item -> Option<(string, V)>, table: Components -> Assoc<string, V>)
    requires table(Components([], [], [], [], [])) == []
    requires forall c: Components, item: Item :: table(AddItem(c, item)) == Assign(table(c), entry(item))
    ensures table(Assemble(items)) == FromPairs(Entries(items, entry))
  {
    if |items| == 0 {
      assert Assemble(items) == Components([], [], [], [], []);
      assert Entries(items, entry) == [];
    } else {
      var n := |items| - 1;
      AssembleTable(items[..n], entry, table);
      var prev := Entries(items[..n], entry);
      var before := table(Assemble(items[..n]));
      var e := entry(items[n]);
      assert table(Assemble(items)) == Assign(before, e);
      EntriesStep(items, entry);
      if e.Some? {
        assert Assign(before, e) == Put(before, e.value.0, e.value.1);
        assert Entries(items, entry) == prev + [(e.value.0, e.value.1)];
        FromPairsSnoc(prev, e.value.0, e.value.1);
      } else {
        assert Assign(before, e) == before;
        assert Entries(items, entry) == prev;
      }
    }
  }

  /** The last clause adds its assignment, if it makes one, to the earlier ones. */
  lemma EntriesStep<V>(items: seq<Item>, entry: Item -> Option<(string, V)>)
    requires |items| > 0
    ensures var n := |items| - 1;
      Entries(items, entry)
        == if entry(items[n]).Some? then Entries(items[..n], entry) + [entry(items[n]).value]
           else Entries(items[..n], entry)
  {
  }

  function ConstraintsOf(c: Components): Assoc<string, Extensional> { c.constraints }
  function DistributionsOf(c: Components): Assoc<string, seq<Decimal>> { c.distributions }
  function TransitionsOf(c: Components): Assoc<string, seq<seq<Decimal>>> { c.transitions }

  /** The constraints are the dictionary of the constraint clauses' assignments. */
  lemma {:induction false} AssembleConstraints(items: seq<Item>)
    ensures Assemble(items).constraints == FromPairs(Entries(items, ConstraintEntry))
  {
    forall c: Components, item: Item
      ensures ConstraintsOf(AddItem(c, item)) == Assign(ConstraintsOf(c), ConstraintEntry(item))
    {
    }
    AssembleTable(items, ConstraintEntry, ConstraintsOf);
  }

  /** The distributions are the dictionary of the distribution clauses' assignments. */
  lemma {:induction false} AssembleDistributions(items: seq<Item>)
    ensures Assemble(items).distributions == FromPairs(Entries(items, DistributionEntry))
  {
    forall c: Components, item: Item
      ensures DistributionsOf(AddItem(c, item)) == Assign(DistributionsOf(c), DistributionEntry(item))
    {
    }
    AssembleTable(items, DistributionEntry, DistributionsOf);
  }

  /** The matrices are the dictionary of the transition clauses' assignments. */
  lemma {:induction false} AssembleTransitions(items: seq<Item>)
    ensures Assemble(items).transitions == FromPairs(Entries(items, TransitionEntry))
  {
    forall c: Components, item: Item
      ensures TransitionsOf(AddItem(c, item)) == Assign(TransitionsOf(c), TransitionEntry(item))
    {
    }
    AssembleTable(items, TransitionEntry, TransitionsOf);
  }

  /** A variable is listed exactly when some clause of its kind declares it. */
  lemma {:induction false} VariablesOfMembers(items: seq<Item>, decision: bool, v: (string, seq<int>))
    ensures v in VariablesOf(items, decision)
        <==> exists i :: 0 <= i < |items| && items[i] == VariableItem(decision, v.0, v.1)
  {
    if |items| > 0 {
      var n := |items| - 1;
      var init := items[..n];
      VariablesOfMembers(init, decision, v);
      assert forall i :: 0 <= i < n ==> init[i] == items[i];
      if v in VariablesOf(items, decision) && v !in VariablesOf(init, decision) {
        assert items[n] == VariableItem(decision, v.0, v.1);
      }
    }
  }

  /** The last clause assigning a key decides that key's value. */
  lemma {:induction false} EntriesLast<V>(items: seq<Item>, entry: Item -> Option<(string, V)>, i: nat)
    requires i < |items| && entry(items[i]).Some?
    requires forall j :: i < j < |items| && entry(items[j]).Some? ==> entry(items[j]).value.0 != entry(items[i]).value.0
    ensures LastValue(Entries(items, entry), entry(items[i]).value.0) == Some(entry(items[i]).value.1)
  {
    var n := |items| - 1;
    var init := items[..n];
    var prev := Entries(init, entry);
    if entry(items[n]).Some? {
      var pairs := prev + [entry(items[n]).value];
      assert pairs[..|prev|] == prev;
    }
    if i < n {
      assert forall j :: i < j < n ==> init[j] == items[j];
      EntriesLast(init, entry, i);
    }
  }

  /** After a successful parse, a constraint clause that no later clause overrides
      is the constraint stored under its left side. */
  lemma ComponentsConstraintLastWins(text: string, i: nat)
    requires ParseComponents(text).Ok?
    requires i < |Split(text, ';')|
    requires ParseClause(Split(text, ';')[i]).value.ConstraintItem?
    requires forall j :: i < j < |Split(text, ';')| && ParseClause(Split(text, ';')[j]).value.ConstraintItem?
               ==> ParseClause(Split(text, ';')[j]).value.key != ParseClause(Split(text, ';')[i]).value.key
    ensures var item := ParseClause(Split(text, ';')[i]).value;
      Get(ParseComponents(text).value.constraints, item.key) == Some(item.constraint)
  {
    var clauses := Split(text, ';');
    var items := MapResults(clauses, ParseClause).value;
    assert items[i] == ParseClause(clauses[i]).value;
    forall j | i < j < |items| && items[j].ConstraintItem?
      ensures items[j].key != items[i].key
    {
      assert items[j] == ParseClause(clauses[j]).value;
    }
    ItemsConstraintLastWins(items, i);
  }

  lemma ItemsConstraintLastWins(items: seq<Item>, i: nat)
    requires i < |items| && items[i].ConstraintItem?
    requires forall j :: i < j < |items| && items[j].ConstraintItem? ==> items[j].key != items[i].key
    ensures Get(Assemble(items).constraints, items[i].key) == Some(items[i].constraint)
  {
    AssembleConstraints(items);
    EntriesLast(items, ConstraintEntry, i);
    FromPairsGet(Entries(items, ConstraintEntry), items[i].key);
  }

  /** A written variable clause is read as that variable over `lo..hi`, provided a
      random clause does not mention `decision`. */
  lemma VariableClauseRoundTrip(decision: bool, name: string, lo: int, hi: int, lead: string)
    requires '=' !in name && '_' !in name && Trimmed(name) && AllSpace(lead)
    requires decision || !Contains(VariableClause(decision, name, lo, hi, lead), "decision")
    ensures ParseClause(VariableClause(decision, name, lo, hi, lead)) == Ok(VariableItem(decision, name, Range(lo, hi)))
  {
    VariableClauseKind(decision, name, lo, hi, lead);
    VariableRoundTrip(decision, name, lo, hi, lead);
  }

  /** After a successful parse, every variable clause is listed under its kind. */
  lemma ComponentsVariableListed(text: string, i: nat)
    requires ParseComponents(text).Ok?
    requires i < |Split(text, ';')|
    requires Classify(Split(text, ';')[i]) in {DecisionVariable, RandomVariable}
    ensures var c := ParseComponents(text).value;
      var item := ParseClause(Split(text, ';')[i]).value;
      && item.VariableItem?
      && item.decision == (Classify(Split(text, ';')[i]) == DecisionVariable)
      && (item.name, item.domain) in (if item.decision then c.decisionVars else c.randomVars)
  {
    var items := MapResults(Split(text, ';'), ParseClause).value;
    AssembleVariables(items);
    VariablesOfMembers(items, items[i].decision, (items[i].name, items[i].domain));
  }

  /** After a successful parse, a distribution clause that no later clause for the
      same variable overrides is the distribution stored for that variable. */
  lemma ComponentsDistributionLastWins(text: string, i: nat)
    requires ParseComponents(text).Ok?
    requires i < |Split(text, ';')|
    requires ParseClause(Split(text, ';')[i]).value.DistributionItem?
    requires forall j :: i < j < |Split(text, ';')| && ParseClause(Split(text, ';')[j]).value.DistributionItem?
               ==> ParseClause(Split(text, ';')[j]).value.variable != ParseClause(Split(text, ';')[i]).value.variable
    ensures var item := ParseClause(Split(text, ';')[i]).value;
      Get(ParseComponents(text).value.distributions, item.variable) == Some(item.probabilities)
  {
    var clauses := Split(text, ';');
    var items := MapResults(clauses, ParseClause).value;
    assert items[i] == ParseClause(clauses[i]).value;
    forall j | i < j < |items| && items[j].DistributionItem?
      ensures items[j].variable != items[i].variable
    {
      assert items[j] == ParseClause(clauses[j]).value;
    }
    ItemsDistributionLastWins(items, i);
  }

  lemma ItemsDistributionLastWins(items: seq<Item>, i: nat)
    requires i < |items| && items[i].DistributionItem?
    requires forall j :: i < j < |items| && items[j].DistributionItem? ==> items[j].variable != items[i].variable
    ensures Get(Assemble(items).distributions, items[i].variable) == Some(items[i].probabilities)
  {
    AssembleDistributions(items);
    EntriesLast(items, DistributionEntry, i);
    FromPairsGet(Entries(items, DistributionEntry), items[i].variable);
  }

  /** After a successful parse, a transition clause that no later clause for the
      same variable overrides is the matrix stored for that variable. */
  lemma ComponentsTransitionLastWins(text: string, i: nat)
    requires ParseComponents(text).Ok?
    requires i < |Split(text, ';')|
    requires ParseClause(Split(text, ';')[i]).value.TransitionItem?
    requires forall j :: i < j < |Split(text, ';')| && ParseClause(Split(text, ';')[j]).value.TransitionItem?
               ==> ParseClause(Split(text, ';')[j]).value.variable != ParseClause(Split(text, ';')[i]).value.variable
    ensures var item := ParseClause(Split(text, ';')[i]).value;
      Get(ParseComponents(text).value.transitions, item.variable) == Some(item.matrix)
  {
    var clauses := Split(text, ';');
    var items := MapResults(clauses, ParseClause).value;
    assert items[i] == ParseClause(clauses[i]).value;
    forall j | i < j < |items| && items[j].TransitionItem?
      ensures items[j].variable != items[i].variable
    {
      assert items[j] == ParseClause(clauses[j]).value;
    }
    ItemsTransitionLastWins(items, i);
  }

  lemma ItemsTransitionLastWins(items: seq<Item>, i: nat)
    requires i < |items| && items[i].TransitionItem?
    requires forall j :: i < j < |items| && items[j].TransitionItem? ==> items[j].variable != items[i].variable
    ensures Get(Assemble(items).transitions, items[i].variable) == Some(items[i].matrix)
  {
    AssembleTransitions(items);
    EntriesLast(items, TransitionEntry, i);
    FromPairsGet(Entries(items, TransitionEntry), items[i].variable);
  }

  /** Every clause that makes an assignment to a table leaves its key in that table. */
  lemma {:induction false} EntriesHasKey<V>(items: seq<Item>, entry: Item -> Option<(string, V)>, i: nat)
    requires i < |items| && entry(items[i]).Some?
    ensures HasKey(Entries(items, entry), entry(items[i]).value.0)
  {
    var n := |items| - 1;
    var init := items[..n];
    var prev := Entries(init, entry);
    if i < n {
      assert init[i] == items[i];
      EntriesHasKey(init, entry, i);
      var l :| 0 <= l < |prev| && prev[l].0 == entry(items[i]).value.0;
      assert Entries(items, entry)[l] == prev[l];
    } else {
      var r := prev + [entry(items[n]).value];
      assert Entries(items, entry) == r;
      assert r[|prev|].0 == entry(items[i]).value.0;
    }
  }

  /** After a successful parse, a constraint clause's stripped left side is a key
      of the constraints. */
  lemma ComponentsConstraintFiled(text: string, i: nat)
    requires ParseComponents(text).Ok?
    requires i < |Split(text, ';')| && Classify(Split(text, ';')[i]) == ConstraintClause
    ensures HasKey(ParseComponents(text).value.constraints, Strip(Split(Split(text, ';')[i], '=')[0]))
  {
    var clauses := Split(text, ';');
    var items := MapResults(clauses, ParseClause).value;
    assert items[i] == ParseConstraintClause(clauses[i]).value;
    ConstraintClauseKey(clauses[i]);
    AssembleConstraints(items);
    EntriesHasKey(items, ConstraintEntry, i);
    FromPairsHasKey(Entries(items, ConstraintEntry), items[i].key);
  }

  /** After a successful parse, a distribution clause's subject is a key of the distributions. */
  lemma ComponentsDistributionFiled(text: string, i: nat)
    requires ParseComponents(text).Ok?
    requires i < |Split(text, ';')| && Classify(Split(text, ';')[i]) == DistributionClause
    ensures HasKey(ParseComponents(text).value.distributions, Subject(Split(Strip(Split(text, ';')[i]), '=')[0]))
  {
    var items := MapResults(Split(text, ';'), ParseClause).value;
    AssembleDistributions(items);
    EntriesHasKey(items, DistributionEntry, i);
    FromPairsHasKey(Entries(items, DistributionEntry), items[i].variable);
  }

  /** After a successful parse, a transition clause's subject is a key of the matrices. */
  lemma ComponentsTransitionFiled(text: string, i: nat)
    requires ParseComponents(text).Ok?
    requires i < |Split(text, ';')| && Classify(Split(text, ';')[i]) == TransitionClause
    ensures HasKey(ParseComponents(text).value.transitions, Subject(Split(Strip(Split(text, ';')[i]), '=')[0]))
  {
    var items := MapResults(Split(text, ';'), ParseClause).value;
    AssembleTransitions(items);
    EntriesHasKey(items, TransitionEntry, i);
    FromPairsHasKey(Entries(items, TransitionEntry), items[i].variable);
  }
}
