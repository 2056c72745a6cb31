/** The DynaGraph simulation-file converter (`sim2yaml.py`): the lines of a
    key=value file become a minimisation problem (domains, variables,
    quadratic intention constraints with their partial derivatives, agents)
    and a scenario, a timeline of agent additions and removals. */
module Sim {
  import opened Wrappers
  import opened Errors
  import opened Text
  import opened Numerals
  import opened OrderedMaps

  // ===========================================================================
  // parse_constraint

  /** The variable an agent id names. */
  function Var(x: string): string {
    "var" + x
  }

  /** `a x^2 + b x y + c y^2` over `var{x}` and `var{y}`, coefficients copied as text. */
  function QuadraticText(x: string, y: string, a: string, b: string, c: string): string {
    a + " * " + Var(x) + "**2 + " + b + " * " + Var(x) + " * " + Var(y) + " + " + c + " * " + Var(y) + "**2"
  }

  /** The partial derivative of the quadratic form with respect to `var{x}`: `2 a x + b y`. */
  function PartialX(x: string, y: string, a: string, b: string): string {
    "2 * " + a + " * " + Var(x) + " + " + b + " * " + Var(y)
  }

  /** The partial derivative of the quadratic form with respect to `var{y}`: `b x + 2 c y`. */
  function PartialY(x: string, y: string, b: string, c: string): string {
    b + " * " + Var(x) + " + 2 * " + c + " * " + Var(y)
  }

  /** The dictionary `{var{x}: ∂/∂x, var{y}: ∂/∂y}`. When both agents are the
      same there is a single key, holding the derivative written second. */
  function Differentials(x: string, y: string, a: string, b: string, c: string): (d: Assoc<string, string>)
    ensures x != y ==> d == [(Var(x), PartialX(x, y, a, b)), (Var(y), PartialY(x, y, b, c))]
    ensures x == y ==> d == [(Var(x), PartialY(x, y, b, c))]
  {
    PrefixInjective("var", x, y);
    Put(Put([], Var(x), PartialX(x, y, a, b)), Var(y), PartialY(x, y, b, c))
  }

  /** What `parse_constraint` returns: the function text and its differentials. */
  datatype Quadratic = Quadratic(formula: string, differentials: Assoc<string, string>)

  /** The text with every parenthesis removed. */
  function Unparen(s: string): (r: string)
    ensures '(' !in r && ')' !in r
    ensures multiset(r)[','] == multiset(s)[',']
    ensures multiset(r)[':'] == multiset(s)[':']
  {
    var once := RemoveAll(s, '(');
    var r := RemoveAll(once, ')');
    RemoveAllCounts(s, '(');
    RemoveAllCounts(once, ')');
    assert multiset(once)['('] == 0;
    assert multiset(r)['('] == 0;
    r
  }

  /** `parse_constraint(token)` for a token shaped `(x,y):(a,b,c)`. */
  function ParseConstraint(token: string): (r: Result<Quadratic, ParseError>)
    ensures multiset(token)[':'] != 1 ==> r == Err(MalformedClause(token))
  {
    var halves := Split(token, ':');
    SplitCount(token, ':');
    if |halves| != 2 then Err(MalformedClause(token))
    else
      var agents := Split(Unparen(halves[0]), ',');
      var coefficients := Split(Unparen(halves[1]), ',');
      if |agents| != 2 || |coefficients| != 3 then Err(MalformedClause(token))
      else
        var x, y := agents[0], agents[1];
        var a, b, c := coefficients[0], coefficients[1], coefficients[2];
        Ok(Quadratic(QuadraticText(x, y, a, b, c), Differentials(x, y, a, b, c)))
  }

  /** Which tokens are accepted: exactly one `:`, then exactly one comma before
      it and exactly two after it; parentheses anywhere are ignored. */
  lemma ParseConstraintShape(left: string, right: string)
    requires ':' !in left && ':' !in right
    ensures ParseConstraint(left + ":" + right).Ok?
        <==> multiset(left)[','] == 1 && multiset(right)[','] == 2
  {
    SplitTwo(left, ':', right);
    SplitCount(Unparen(left), ',');
    SplitCount(Unparen(right), ',');
  }

  /** Whatever parentheses surround them, the fields between the commas are
      copied verbatim into the function text and the derivatives. */
  lemma ParseConstraintFields(left: string, right: string, x: string, y: string, a: string, b: string, c: string)
    requires ':' !in left && ':' !in right
    requires ',' !in x && ',' !in y && ',' !in a && ',' !in b && ',' !in c
    requires Unparen(left) == x + "," + y
    requires Unparen(right) == a + "," + b + "," + c
    ensures ParseConstraint(left + ":" + right)
         == Ok(Quadratic(QuadraticText(x, y, a, b, c), Differentials(x, y, a, b, c)))
  {
    SplitTwo(left, ':', right);
    SplitTwo(x, ',', y);
    SplitThree(a, ',', b, c);
    var halves := Split(left + ":" + right, ':');
    assert halves[0] == left && halves[1] == right;
    assert Split(Unparen(halves[0]), ',') == [x, y];
    assert Split(Unparen(halves[1]), ',') == [a, b, c];
  }

  /** The text in parentheses. */
  function Parenthesized(s: string): string {
    "(" + s + ")"
  }

  /** The token `(x,y):(a,b,c)`. */
  function ConstraintToken(x: string, y: string, a: string, b: string, c: string): string {
    Parenthesized(x + "," + y) + ":" + Parenthesized(a + "," + b + "," + c)
  }

  /** A field that holds none of the token's punctuation. */
  predicate PlainField(s: string) {
    '(' !in s && ')' !in s && ',' !in s && ':' !in s
  }

  lemma UnparenWrapped(inner: string)
    requires '(' !in inner && ')' !in inner
    ensures Unparen(Parenthesized(inner)) == inner
  {
    var open, close := ['('], [')'];
    var once := RemoveAll(open + inner + close, '(');
    calc {
      once;
      { RemoveAllConcat(open + inner, close, '('); }
      RemoveAll(open + inner, '(') + RemoveAll(close, '(');
      { RemoveAllConcat(open, inner, '('); }
      RemoveAll(open, '(') + RemoveAll(inner, '(') + RemoveAll(close, '(');
      [] + inner + close;
    }
    assert once == inner + close;
    RemoveAllConcat(inner, close, ')');
    assert RemoveAll(once, ')') == inner + [];
  }

  /** Rendering a constraint as a token and parsing it recovers the quadratic
      form over the same agents and coefficients. */
  lemma ConstraintTokenRoundTrip(x: string, y: string, a: string, b: string, c: string)
    requires PlainField(x) && PlainField(y) && PlainField(a) && PlainField(b) && PlainField(c)
    ensures ParseConstraint(ConstraintToken(x, y, a, b, c))
         == Ok(Quadratic(QuadraticText(x, y, a, b, c), Differentials(x, y, a, b, c)))
  {
    var agents := x + "," + y;
    var coefficients := a + "," + b + "," + c;
    var left := Parenthesized(agents);
    var right := Parenthesized(coefficients);
    UnparenWrapped(agents);
    UnparenWrapped(coefficients);
    ParseConstraintFields(left, right, x, y, a, b, c);
  }

  // ===========================================================================
  // the key=value configuration

  /** The text before the first `=` of a line, taken as is. */
  function KeyOf(line: string): string {
    Split(line, '=')[0]
  }

  /** The stripped text between the first and the second `=` of a line. */
  function ValueOf(line: string): string
    requires '=' in line
  {
    assert multiset(line)['='] > 0;
    SplitCount(line, '=');
    Strip(Split(line, '=')[1])
  }

  /** The dictionary entry a line contributes; Python's `kv[1]` raises on a
      line without `=`. */
  function ConfigEntry(line: string): (r: Result<(string, string), ParseError>)
    ensures r.Ok? <==> '=' in line
    ensures r.Ok? ==> r.value == (KeyOf(line), ValueOf(line))
    ensures r.Err? ==> r.error == MalformedClause(line)
  {
    if '=' in line then Ok((KeyOf(line), ValueOf(line))) else Err(MalformedClause(line))
  }

  /** The configuration dictionary `lines_4_config`: every line's entry
      assigned in file order, so a repeated key keeps its last value. */
  function ParseConfig(lines: seq<string>): Result<Assoc<string, string>, ParseError> {
    var entries :- MapResults(lines, ConfigEntry);
    Ok(FromPairs(entries))
  }

  /** A key that is never assigned is absent. */
  lemma ParseConfigMissing(lines: seq<string>, key: string)
    requires ParseConfig(lines).Ok?
    requires forall i :: 0 <= i < |lines| ==> KeyOf(lines[i]) != key
    ensures Get(ParseConfig(lines).value, key) == None
  {
    var entries := MapResults(lines, ConfigEntry).value;
    FromPairsGet(entries, key);
    LastValueNone(entries, key);
  }

  /** The value of the last line that assigns a key is the one that is kept. */
  lemma ParseConfigLastWins(lines: seq<string>, i: nat)
    requires ParseConfig(lines).Ok?
    requires i < |lines|
    requires forall j :: i < j < |lines| ==> KeyOf(lines[j]) != KeyOf(lines[i])
    ensures Get(ParseConfig(lines).value, KeyOf(lines[i])) == Some(ValueOf(lines[i]))
  {
    var entries := MapResults(lines, ConfigEntry).value;
    FromPairsGet(entries, KeyOf(lines[i]));
    LastValueAt(entries, i);
  }

  /** `lines_4_config[key]`: a missing key raises `KeyError`. */
  function Lookup(config: Assoc<string, string>, key: string): (r: Result<string, ParseError>)
    ensures r.Ok? <==> HasKey(config, key)
    ensures r.Ok? ==> Get(config, key) == Some(r.value)
    ensures r.Err? ==> r.error == MissingKey(key)
  {
    match Get(config, key)
    case None => Err(MissingKey(key))
    case Some(v) => Ok(v)
  }

  /** A line `key=value` in the form the configuration file uses. */
  function ConfigLine(key: string, value: string): string {
    key + "=" + value + "\n"
  }

  /** A line written from a key and a value without `=` gives that key and value back. */
  lemma ConfigLineRoundTrip(key: string, value: string)
    requires '=' !in key && '=' !in value
    requires Trimmed(value) && value != []
    ensures ConfigEntry(ConfigLine(key, value)) == Ok((key, value))
  {
    var line := ConfigLine(key, value);
    var tail := value + "\n";
    assert line == key + ['='] + tail;
    assert '=' !in tail;
    SplitTwo(key, '=', tail);
    assert '=' in line by { assert line[|key|] == '='; }
    assert tail == "" + value + "\n";
    StripPadded("", value, "\n");
  }

  // ===========================================================================
  // domains, variables and agents

  /** `int(v)`, raising on a text that is not a base-10 integer. */
  function IntValue(text: string): Result<int, ParseError> {
    OrFail(ParseInt(text), InvalidLiteral(text))
  }

  /** One token `id:v1,v2,...` of the `domains` value: the agent id and its values. */
  function ParseDomainToken(token: string): (r: Result<(string, seq<int>), ParseError>)
    ensures multiset(token)[':'] != 1 ==> r == Err(MalformedClause(token))
  {
    var fields := Split(token, ':');
    SplitCount(token, ':');
    if |fields| != 2 then Err(MalformedClause(token))
    else
      var values :- MapResults(Split(fields[1], ','), IntValue);
      Ok((fields[0], values))
  }

  /** The token that declares agent `id` with the given values. */
  function DomainToken(id: string, values: seq<int>): string
    requires |values| >= 1
  {
    id + ":" + IntsText(values)
  }

  /** Reading rendered integers with `int()` gives them back. */
  lemma IntValuesRoundTrip(values: seq<int>)
    requires |values| >= 1
    ensures MapResults(Split(IntsText(values), ','), IntValue) == Ok(values)
  {
    IntsTextRoundTrip(values);
    IntTextsFacts(values);
    var texts := IntTexts(values);
    assert forall i :: 0 <= i < |texts| ==> IntValue(texts[i]) == Ok(values[i]);
    MapResultsPointwise(texts, IntValue, values);
  }

  /** A domain token read back yields the id and the values it was written from. */
  lemma DomainTokenRoundTrip(id: string, values: seq<int>)
    requires ':' !in id && |values| >= 1
    ensures ParseDomainToken(DomainToken(id, values)) == Ok((id, values))
  {
    var body := IntsText(values);
    IntsTextFree(values, ':');
    assert DomainToken(id, values) == id + [':'] + body;
    SplitTwo(id, ':', body);
    IntValuesRoundTrip(values);
  }

  /** The `domains` value: space-separated tokens, in order. */
  function ParseDomains(text: string): Result<seq<(string, seq<int>)>, ParseError> {
    MapResults(Split(text, ' '), ParseDomainToken)
  }

  /** A declaration of agents and their values, one token per agent. */
  predicate ValidDeclarations(decls: seq<(string, seq<int>)>) {
    |decls| >= 1 && forall i :: 0 <= i < |decls| ==> ':' !in decls[i].0 && ' ' !in decls[i].0 && |decls[i].1| >= 1
  }

  /** The `domains` value declaring the given agents, `0:1,2 1:1,2,3`. */
  function DomainsText(decls: seq<(string, seq<int>)>): string
    requires ValidDeclarations(decls)
  {
    Join(seq(|decls|, i requires 0 <= i < |decls| => DomainToken(decls[i].0, decls[i].1)), ' ')
  }

  /** The `domains` value read back yields the declarations it was written from. */
  lemma DomainsTextRoundTrip(decls: seq<(string, seq<int>)>)
    requires ValidDeclarations(decls)
    ensures ParseDomains(DomainsText(decls)) == Ok(decls)
  {
    var tokens := seq(|decls|, i requires 0 <= i < |decls| => DomainToken(decls[i].0, decls[i].1));
    forall i | 0 <= i < |tokens|
      ensures ' ' !in tokens[i] && ParseDomainToken(tokens[i]) == Ok(decls[i])
    {
      IntsTextFree(decls[i].1, ' ');
      DomainTokenRoundTrip(decls[i].0, decls[i].1);
    }
    SplitJoin(tokens, ' ');
    MapResultsPointwise(tokens, ParseDomainToken, decls);
  }

  /** A `values` entry of the `domains` section. */
  datatype Domain = Domain(values: seq<int>)

  /** A `domain` entry of the `variables` section. */
  datatype Variable = Variable(domain: string)

  /** An `id` entry of the `agents` section. */
  datatype Agent = Agent(id: string)

  function DomainName(id: string): string {
    "d" + id
  }

  function AgentName(id: string): string {
    "a" + id
  }

  /** `agent_ids`: the ids of the tokens in order, repetitions kept. */
  function AgentIds(parsed: seq<(string, seq<int>)>): (ids: seq<string>)
    ensures |ids| == |parsed|
    ensures forall i :: 0 <= i < |parsed| ==> ids[i] == parsed[i].0
  {
    seq(|parsed|, i requires 0 <= i < |parsed| => parsed[i].0)
  }

  /** The assignments `domains[d{id}] = {values}` in token order. */
  function DomainPairs(parsed: seq<(string, seq<int>)>): (pairs: seq<(string, Domain)>)
    ensures |pairs| == |parsed|
    ensures forall i :: 0 <= i < |parsed| ==> pairs[i] == (DomainName(parsed[i].0), Domain(parsed[i].1))
  {
    seq(|parsed|, i requires 0 <= i < |parsed| => (DomainName(parsed[i].0), Domain(parsed[i].1)))
  }

  /** The assignments `variables[var{id}] = {domain: d{id}}` in id order. */
  function VariablePairs(ids: seq<string>): (pairs: seq<(string, Variable)>)
    ensures |pairs| == |ids|
    ensures forall i :: 0 <= i < |ids| ==> pairs[i] == (Var(ids[i]), Variable(DomainName(ids[i])))
  {
    seq(|ids|, i requires 0 <= i < |ids| => (Var(ids[i]), Variable(DomainName(ids[i]))))
  }

  /** The entries `a{id}: {id: id}` of the agents comprehension in id order. */
  function AgentPairs(ids: seq<string>): (pairs: seq<(string, Agent)>)
    ensures |pairs| == |ids|
    ensures forall i :: 0 <= i < |ids| ==> pairs[i] == (AgentName(ids[i]), Agent(ids[i]))
  {
    seq(|ids|, i requires 0 <= i < |ids| => (AgentName(ids[i]), Agent(ids[i])))
  }

  /** The `domains` section: one entry per token, a repeated id keeping its last values. */
  function DomainRecords(parsed: seq<(string, seq<int>)>): (m: Assoc<string, Domain>)
    ensures DistinctKeys(m)
  {
    FromPairs(DomainPairs(parsed))
  }

  /** The `variables` section. */
  function VariableRecords(ids: seq<string>): (m: Assoc<string, Variable>)
    ensures DistinctKeys(m)
  {
    FromPairs(VariablePairs(ids))
  }

  /** The `agents` section. */
  function AgentRecords(ids: seq<string>): (m: Assoc<string, Agent>)
    ensures DistinctKeys(m)
  {
    FromPairs(AgentPairs(ids))
  }

  /** A domain holds the values of the last token that declares its agent. */
  lemma DomainsLastWins(parsed: seq<(string, seq<int>)>, i: nat)
    requires i < |parsed|
    requires forall j :: i < j < |parsed| ==> parsed[j].0 != parsed[i].0
    ensures Get(DomainRecords(parsed), DomainName(parsed[i].0)) == Some(Domain(parsed[i].1))
  {
    var pairs := DomainPairs(parsed);
    forall j | i < j < |pairs|
      ensures pairs[j].0 != pairs[i].0
    {
      PrefixInjective("d", parsed[j].0, parsed[i].0);
    }
    FromPairsLast(pairs, i);
  }

  /** `var{id}` is a variable exactly when `id` is a declared agent, and its domain is `d{id}`. */
  lemma VariableOfAgent(ids: seq<string>, id: string)
    ensures Get(VariableRecords(ids), Var(id)) == if id in ids then Some(Variable(DomainName(id))) else None
  {
    var pairs := VariablePairs(ids);
    forall l | 0 <= l < |pairs| && pairs[l].0 == Var(id)
      ensures pairs[l].1 == Variable(DomainName(id))
    {
      PrefixInjective("var", ids[l], id);
    }
    FromPairsUniform(pairs, Var(id), Variable(DomainName(id)));
    if id in ids {
      var l :| 0 <= l < |ids| && ids[l] == id;
      assert pairs[l].0 == Var(id);
    } else {
      forall l | 0 <= l < |pairs|
        ensures pairs[l].0 != Var(id)
      {
        PrefixInjective("var", ids[l], id);
      }
    }
  }

  /** `a{id}` is an agent exactly when `id` is a declared agent, and it carries that id. */
  lemma AgentOfId(ids: seq<string>, id: string)
    ensures Get(AgentRecords(ids), AgentName(id)) == if id in ids then Some(Agent(id)) else None
  {
    var pairs := AgentPairs(ids);
    forall l | 0 <= l < |pairs| && pairs[l].0 == AgentName(id)
      ensures pairs[l].1 == Agent(id)
    {
      PrefixInjective("a", ids[l], id);
    }
    FromPairsUniform(pairs, AgentName(id), Agent(id));
    if id in ids {
      var l :| 0 <= l < |ids| && ids[l] == id;
      assert pairs[l].0 == AgentName(id);
    } else {
      forall l | 0 <= l < |pairs|
        ensures pairs[l].0 != AgentName(id)
      {
        PrefixInjective("a", ids[l], id);
      }
    }
  }

  /** Every declared agent has a domain entry. */
  lemma DomainOfAgent(parsed: seq<(string, seq<int>)>, id: string)
    requires id in AgentIds(parsed)
    ensures HasKey(DomainRecords(parsed), DomainName(id))
  {
    var pairs := DomainPairs(parsed);
    var l :| 0 <= l < |parsed| && AgentIds(parsed)[l] == id;
    assert pairs[l].0 == DomainName(id);
    FromPairsHasKey(pairs, DomainName(id));
  }

  /** Every variable refers to a domain of the `domains` section. */
  lemma VariablesUseDeclaredDomains(parsed: seq<(string, seq<int>)>)
    ensures var variables := VariableRecords(AgentIds(parsed));
      forall i :: 0 <= i < |variables| ==> HasKey(DomainRecords(parsed), variables[i].1.domain)
  {
    var ids := AgentIds(parsed);
    var variables := VariableRecords(ids);
    var pairs := VariablePairs(ids);
    forall i | 0 <= i < |variables|
      ensures HasKey(DomainRecords(parsed), variables[i].1.domain)
    {
      var key := variables[i].0;
      assert HasKey(variables, key);
      FromPairsHasKey(pairs, key);
      var l :| 0 <= l < |pairs| && pairs[l].0 == key;
      VariableOfAgent(ids, ids[l]);
      DomainOfAgent(parsed, ids[l]);
    }
  }

  /** With no repeated agent id the domains appear once each, in token order. */
  lemma DomainsInOrder(parsed: seq<(string, seq<int>)>)
    requires Distinct(AgentIds(parsed))
    ensures DomainRecords(parsed) == DomainPairs(parsed)
  {
    var pairs := DomainPairs(parsed);
    forall i, j | 0 <= i < j < |pairs|
      ensures pairs[i].0 != pairs[j].0
    {
      PrefixInjective("d", parsed[i].0, parsed[j].0);
    }
    FromPairsDistinct(pairs);
  }

  /** With no repeated agent id the variables appear once each, in id order. */
  lemma VariablesInOrder(ids: seq<string>)
    requires Distinct(ids)
    ensures VariableRecords(ids) == VariablePairs(ids)
  {
    var pairs := VariablePairs(ids);
    forall i, j | 0 <= i < j < |pairs|
      ensures pairs[i].0 != pairs[j].0
    {
      PrefixInjective("var", ids[i], ids[j]);
    }
    FromPairsDistinct(pairs);
  }

  /** With no repeated agent id the agents appear once each, in id order. */
  lemma AgentsInOrder(ids: seq<string>)
    requires Distinct(ids)
    ensures AgentRecords(ids) == AgentPairs(ids)
  {
    var pairs := AgentPairs(ids);
    forall i, j | 0 <= i < j < |pairs|
      ensures pairs[i].0 != pairs[j].0
    {
      PrefixInjective("a", ids[i], ids[j]);
    }
    FromPairsDistinct(pairs);
  }

  // ===========================================================================
  // constraints

  /** A `constraints` entry: an intention constraint of type `intention`. */
  datatype Constraint = Intention(formula: string, differentials: Assoc<string, string>)

  /** The name `c{n}` given to the constraint written when `n` are already present. */
  function ConstraintName(n: nat): string {
    "c" + NatToString(n)
  }

  /** Different positions get different constraint names. */
  lemma ConstraintNameInjective(m: nat, n: nat)
    ensures ConstraintName(m) == ConstraintName(n) <==> m == n
  {
    PrefixInjective("c", NatToString(m), NatToString(n));
    if NatToString(m) == NatToString(n) {
      NatToStringInjective(m, n);
    }
  }

  /** The entry `parse_constraint` output becomes. */
  function ToConstraint(form: Quadratic): Constraint {
    Intention(form.formula, form.differentials)
  }

  /** Storing under the next unused name appends the entry. */
  lemma PutNextConstraint(prev: Assoc<string, Constraint>, c: Constraint)
    requires forall i :: 0 <= i < |prev| ==> prev[i].0 == ConstraintName(i)
    ensures Put(prev, ConstraintName(|prev|), c) == prev + [(ConstraintName(|prev|), c)]
  {
    forall i | 0 <= i < |prev|
      ensures prev[i].0 != ConstraintName(|prev|)
    {
      ConstraintNameInjective(i, |prev|);
    }
  }

  /** The `constraints` section: each parsed form stored under `c{len(constraints)}`. */
  function BuildConstraints(forms: seq<Quadratic>): Assoc<string, Constraint> {
    if |forms| == 0 then []
    else
      var prev := BuildConstraints(forms[..|forms| - 1]);
      Put(prev, ConstraintName(|prev|), ToConstraint(forms[|forms| - 1]))
  }

  /** Since the name is the count so far, every form is appended under a fresh
      name: the i-th form becomes the constraint `c{i}`, in order. */
  lemma {:induction false} BuildConstraintsInOrder(forms: seq<Quadratic>)
    ensures |BuildConstraints(forms)| == |forms|
    ensures forall i :: 0 <= i < |forms| ==> BuildConstraints(forms)[i] == (ConstraintName(i), ToConstraint(forms[i]))
  {
    if |forms| > 0 {
      var n := |forms| - 1;
      var prev := BuildConstraints(forms[..n]);
      BuildConstraintsInOrder(forms[..n]);
      PutNextConstraint(prev, ToConstraint(forms[n]));
      var r := prev + [(ConstraintName(n), ToConstraint(forms[n]))];
      assert BuildConstraints(forms) == r;
      forall i | 0 <= i < |forms|
        ensures r[i] == (ConstraintName(i), ToConstraint(forms[i]))
      {
        if i < n {
          assert r[i] == prev[i];
          assert prev[i] == (ConstraintName(i), ToConstraint(forms[..n][i]));
          assert forms[..n][i] == forms[i];
        } else {
          assert r[i] == (ConstraintName(n), ToConstraint(forms[n]));
        }
      }
    }
  }

  /** The `cons` value: constraint tokens separated by `>`, every one parsed. */
  function ParseConstraints(text: string): Result<Assoc<string, Constraint>, ParseError> {
    var forms :- MapResults(Split(text, '>'), ParseConstraint);
    Ok(BuildConstraints(forms))
  }

  /** Each token yields the constraint at its own position. */
  lemma ParseConstraintsPositions(text: string, i: nat)
    requires ParseConstraints(text).Ok?
    requires i < |Split(text, '>')|
    ensures |ParseConstraints(text).value| == |Split(text, '>')|
    ensures ParseConstraints(text).value[i].0 == ConstraintName(i)
    ensures ParseConstraints(text).value[i].1 == ToConstraint(ParseConstraint(Split(text, '>')[i]).value)
  {
    BuildConstraintsInOrder(MapResults(Split(text, '>'), ParseConstraint).value);
  }

  // ===========================================================================
  // the scenario

  /** One action of an event: `type` is the command text before the colon. */
  datatype Action = Action(kind: string, agent: string)

  /** A scenario event: a pause of `delay` time units, or a list of actions. */
  datatype Event = Wait(id: string, delay: nat) | Act(id: string, actions: seq<Action>)

  /** The commands that become events; every other command is skipped. */
  predicate IsAgentCommand(cmd: string) {
    Contains(cmd, "add_agent") || Contains(cmd, "remove_agent")
  }

  /** A command that the loop accepts: skipped, or `kind:agent` with exactly one colon. */
  predicate WellFormedCommand(cmd: string) {
    !IsAgentCommand(cmd) || multiset(cmd)[':'] == 1
  }

  /** The two events the `i`-th command adds: its action, then a pause of 12. */
  function CommandEvents(cmd: string, i: nat): (r: Result<seq<Event>, ParseError>)
    ensures r.Ok? <==> multiset(cmd)[':'] == 1
    ensures r.Err? ==> r.error == MalformedClause(cmd)
    ensures r.Ok? ==> |r.value| == 2
  {
    var fields := Split(cmd, ':');
    SplitCount(cmd, ':');
    if |fields| != 2 then Err(MalformedClause(cmd))
    else
      Ok([Act("e" + NatToString(i), [Action(fields[0], AgentName(fields[1]))]),
          Wait("w" + NatToString(i + 1), 12)])
  }

  /** The events of a command list: the initial pause `w0`, then two events per
      agent command; the first malformed agent command aborts. */
  function Events(cmds: seq<string>): Result<seq<Event>, ParseError> {
    if |cmds| == 0 then Ok([Wait("w0", 1)])
    else
      var n := |cmds| - 1;
      var prev :- Events(cmds[..n]);
      if IsAgentCommand(cmds[n]) then
        var added :- CommandEvents(cmds[n], n);
        Ok(prev + added)
      else
        Ok(prev)
  }

  /** The `commands` value: space-separated commands. */
  function ParseScenario(text: string): Result<seq<Event>, ParseError> {
    Events(Split(text, ' '))
  }

  /** How many of the commands are agent commands. */
  function CountAgentCommands(cmds: seq<string>): nat {
    if |cmds| == 0 then 0
    else CountAgentCommands(cmds[..|cmds| - 1]) + if IsAgentCommand(cmds[|cmds| - 1]) then 1 else 0
  }

  /** The scenario is produced exactly when every agent command has one colon. */
  lemma {:induction false} EventsOk(cmds: seq<string>)
    ensures Events(cmds).Ok? <==> forall i :: 0 <= i < |cmds| ==> WellFormedCommand(cmds[i])
  {
    if |cmds| > 0 {
      var n := |cmds| - 1;
      EventsOk(cmds[..n]);
      assert forall i :: 0 <= i < n ==> cmds[..n][i] == cmds[i];
    }
  }

  /** `cmds[j]` is the first malformed agent command. */
  predicate FirstMalformed(cmds: seq<string>, j: int) {
    0 <= j < |cmds| && !WellFormedCommand(cmds[j]) && forall l :: 0 <= l < j ==> WellFormedCommand(cmds[l])
  }

  /** A failed scenario names the first malformed agent command. */
  lemma {:induction false} EventsError(cmds: seq<string>)
    requires Events(cmds).Err?
    ensures exists j :: FirstMalformed(cmds, j) && Events(cmds).error == MalformedClause(cmds[j])
  {
    var n := |cmds| - 1;
    var init := cmds[..n];
    assert forall i :: 0 <= i < n ==> init[i] == cmds[i];
    if Events(init).Err? {
      EventsError(init);
      var j :| FirstMalformed(init, j) && Events(init).error == MalformedClause(init[j]);
      assert FirstMalformed(cmds, j);
    } else {
      EventsOk(init);
      assert FirstMalformed(cmds, n);
    }
  }

  /** The scenario opens with the pause `w0` and holds two events per agent command. */
  lemma {:induction false} EventsShape(cmds: seq<string>)
    requires Events(cmds).Ok?
    ensures |Events(cmds).value| == 1 + 2 * CountAgentCommands(cmds)
    ensures Events(cmds).value[0] == Wait("w0", 1)
  {
    if |cmds| > 0 {
      EventsShape(cmds[..|cmds| - 1]);
    }
  }

  /** The events of a command list extend those of its prefix by the last command's. */
  lemma EventsExtend(cmds: seq<string>)
    requires Events(cmds).Ok? && |cmds| > 0
    ensures Events(cmds[..|cmds| - 1]).Ok?
    ensures Events(cmds[..|cmds| - 1]).value <= Events(cmds).value
    ensures IsAgentCommand(cmds[|cmds| - 1]) ==> CommandEvents(cmds[|cmds| - 1], |cmds| - 1).Ok?
    ensures IsAgentCommand(cmds[|cmds| - 1]) ==>
      Events(cmds).value == Events(cmds[..|cmds| - 1]).value + CommandEvents(cmds[|cmds| - 1], |cmds| - 1).value
  {
  }

  /** The events of the `i`-th command sit right after those of the agent commands before it. */
  lemma {:induction false} EventsAt(cmds: seq<string>, i: nat)
    requires Events(cmds).Ok?
    requires i < |cmds| && IsAgentCommand(cmds[i])
    ensures CommandEvents(cmds[i], i).Ok?
    ensures var k := 1 + 2 * CountAgentCommands(cmds[..i]);
      k + 2 <= |Events(cmds).value| && Events(cmds).value[k..k + 2] == CommandEvents(cmds[i], i).value
  {
    var n := |cmds| - 1;
    var init := cmds[..n];
    EventsExtend(cmds);
    if i < n {
      assert cmds[..i] == init[..i];
      assert init[i] == cmds[i];
      EventsAt(init, i);
    } else {
      assert cmds[..i] == init;
      EventsShape(init);
    }
  }

  /** An agent command `kind:agent` becomes the action of `kind` on `a{agent}` and a pause. */
  lemma CommandEventsOf(kind: string, agent: string, i: nat)
    requires ':' !in kind && ':' !in agent
    ensures CommandEvents(kind + ":" + agent, i)
         == Ok([Act("e" + NatToString(i), [Action(kind, AgentName(agent))]), Wait("w" + NatToString(i + 1), 12)])
  {
    SplitTwo(kind, ':', agent);
  }

  // ===========================================================================
  // the conversion

  /** The problem file: name, objective and the four sections. */
  datatype Problem = Problem(
    name: string,
    objective: string,
    domains: Assoc<string, Domain>,
    variables: Assoc<string, Variable>,
    constraints: Assoc<string, Constraint>,
    agents: Assoc<string, Agent>)

  /** What a run produces: the problem file, then the scenario file or the error
      that stopped the run after the problem file was written. */
  datatype Conversion = Conversion(problem: Problem, scenario: Result<seq<Event>, ParseError>)

  /** The problem the configuration describes, in the order the sections are
      built; an error here stops the run before anything is written. */
  function ConvertProblem(name: string, config: Assoc<string, string>): Result<Problem, ParseError> {
    var domainsText :- Lookup(config, "domains");
    var parsed :- ParseDomains(domainsText);
    var consText :- Lookup(config, "cons");
    var constraints :- ParseConstraints(consText);
    var ids := AgentIds(parsed);
    Ok(Problem(name, "min", DomainRecords(parsed), VariableRecords(ids), constraints, AgentRecords(ids)))
  }

  /** The scenario the configuration describes. */
  function ConvertScenario(config: Assoc<string, string>): Result<seq<Event>, ParseError> {
    var commands :- Lookup(config, "commands");
    ParseScenario(commands)
  }

  /** The whole conversion of the simulation file's lines (each as read, with its
      line break) into a problem named `name` and its scenario. */
  function Convert(name: string, lines: seq<string>): Result<Conversion, ParseError> {
    var config :- ParseConfig(lines);
    var problem :- ConvertProblem(name, config);
    Ok(Conversion(problem, ConvertScenario(config)))
  }

  /** A file that never assigns `domains` is refused with that key. */
  lemma ConvertWithoutDomains(name: string, lines: seq<string>)
    requires ParseConfig(lines).Ok?
    requires forall i :: 0 <= i < |lines| ==> KeyOf(lines[i]) != "domains"
    ensures Convert(name, lines) == Err(MissingKey("domains"))
  {
    ParseConfigMissing(lines, "domains");
  }

  /** A converted problem is built from the parsed `domains` tokens and `cons` value. */
  lemma ConvertProblemParts(name: string, config: Assoc<string, string>)
    requires ConvertProblem(name, config).Ok?
    ensures Lookup(config, "domains").Ok? && ParseDomains(Lookup(config, "domains").value).Ok?
    ensures Lookup(config, "cons").Ok? && ParseConstraints(Lookup(config, "cons").value).Ok?
    ensures var parsed := ParseDomains(Lookup(config, "domains").value).value;
      var ids := AgentIds(parsed);
      ConvertProblem(name, config).value
        == Problem(name, "min", DomainRecords(parsed), VariableRecords(ids),
                   ParseConstraints(Lookup(config, "cons").value).value, AgentRecords(ids))
  {
  }

  /** The constraints of a converted problem are the `>`-separated tokens of the
      `cons` value, in order, the `i`-th named `c{i}`. */
  lemma ConvertConstraints(name: string, config: Assoc<string, string>)
    requires ConvertProblem(name, config).Ok?
    ensures Lookup(config, "cons").Ok?
    ensures var cons := Split(Lookup(config, "cons").value, '>');
      var p := ConvertProblem(name, config).value;
      && |p.constraints| == |cons|
      && forall i :: 0 <= i < |cons| ==>
           ParseConstraint(cons[i]).Ok?
           && p.constraints[i] == (ConstraintName(i), ToConstraint(ParseConstraint(cons[i]).value))
  {
    ConvertProblemParts(name, config);
    var text := Lookup(config, "cons").value;
    var cons := Split(text, '>');
    ParseConstraintsPositions(text, 0);
    forall i | 0 <= i < |cons|
      ensures ParseConstraint(cons[i]).Ok?
      ensures ParseConstraints(text).value[i] == (ConstraintName(i), ToConstraint(ParseConstraint(cons[i]).value))
    {
      ParseConstraintsPositions(text, i);
    }
  }

  /** Every variable of a converted problem refers to one of its domains. */
  lemma ConvertVariablesHaveDomains(name: string, config: Assoc<string, string>)
    requires ConvertProblem(name, config).Ok?
    ensures var p := ConvertProblem(name, config).value;
      forall i :: 0 <= i < |p.variables| ==> HasKey(p.domains, p.variables[i].1.domain)
  {
    ConvertProblemParts(name, config);
    VariablesUseDeclaredDomains(ParseDomains(Lookup(config, "domains").value).value);
  }

  /** A converted problem has a variable `var{id}` exactly when it has an agent `a{id}`. */
  lemma ConvertAgentsMatchVariables(name: string, config: Assoc<string, string>, id: string)
    requires ConvertProblem(name, config).Ok?
    ensures var p := ConvertProblem(name, config).value;
      HasKey(p.variables, Var(id)) <==> HasKey(p.agents, AgentName(id))
  {
    ConvertProblemParts(name, config);
    var ids := AgentIds(ParseDomains(Lookup(config, "domains").value).value);
    VariableOfAgent(ids, id);
    AgentOfId(ids, id);
  }
}
