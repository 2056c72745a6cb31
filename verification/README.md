# DCOP format converters, modelled in Dafny

This project models the two text-to-problem converters of the DCOP generator
repository.

- `sim2yaml.py` reads a DynaGraph simulation file: `key=value` lines, of which
  `domains`, `cons` and `commands` are used. It produces two things:
  - a minimisation problem, with domains `d{id}`, variables `var{id}`, quadratic
    intention constraints `c0, c1, ...` with their partial derivatives, and
    agents `a{id}`;
  - a scenario: the pause `w0`, then one action and a pause of 12 for every
    `add_agent`/`remove_agent` command.
- `_get_pdcop_components` of `pdcop2yaml.py` reads a `;`-separated PDCOP text.
  Each clause is classified by the keywords it mentions. Clauses contribute
  decision and random variables with inclusive integer ranges, extensional
  constraints whose value tables group assignments by utility, initial
  distributions, and transition matrices.

Files:

| file | module | contents |
|---|---|---|
| `wrappers.dfy` | `Wrappers`, `Errors` | `Option`, `Result`, the first-error-wins `MapResults`, the three error kinds |
| `text.dfy` | `Text` | Python's `str.split`, `strip`, `in`, `replace(c, '')`, `removeprefix`/`removesuffix` |
| `numerals.dfy` | `Numerals` | `str(n)`, `int(text)`, and a literal reader for integers, decimals and list/tuple displays |
| `ordered_maps.dfy` | `OrderedMaps` | insertion-ordered dictionaries with Python's assignment semantics |
| `sim.dfy` | `Sim` | `sim2yaml.py` |
| `pdcop.dfy` | `Pdcop` | `_get_pdcop_components` |

Python dictionaries are modelled as association lists. `Put` replaces a
present key in place and appends a new one, so key order and "the last
assignment wins" behave as in Python. Each raise becomes a `Result` error:

- `MalformedClause`: a split did not give the expected number of pieces;
- `InvalidLiteral`: a text that `int` or `eval` would reject;
- `MissingKey`: a configuration key that `lines_4_config[...]` would miss.

The source's `eval` is replaced by a literal reader. It reads decimal integer
literals (an optional sign, no leading zeros except for zero itself), decimal-point
literals as exact decimals, and list displays, parenthesised tuples and bare
comma tuples of those. Unlike `str.strip()`, which removes every Unicode space,
`eval` accepts only the whitespace Python's tokenizer skips: spaces, tabs and
form feeds, line breaks inside brackets, and blank lines before an expression
provided the expression's own line is not indented. `Numerals.EvalPadding` and
`Numerals.ItemPadding` state this, so a no-break space around a literal is
refused as `eval` refuses it.

Behaviour of the code that the model keeps:

- `range(lo, hi + 1)` is empty when `lo > hi` (`pdcop2yaml.py:28`), so reversed
  bounds give an empty domain; `Pdcop.Range` states it.
- The problem file is written (`sim2yaml.py:73-74`) before `commands` is read
  (`sim2yaml.py:82`). So `Sim.Conversion` keeps the problem next to the
  scenario's own `Result`.
- The unpacking at `pdcop2yaml.py:38` needs exactly three `_`-tokens in a
  constraint's left side.

## Model

| member | source | states |
|---|---|---|
| Sim.Differentials | sim2yaml.py:13-16 | the derivative dictionary has keys `var{x}` then `var{y}` with `2a·x + b·y` and `b·x + 2c·y`; when x = y the single key holds the second derivative |
| Sim.ParseConstraint | sim2yaml.py:7-9 | a token without exactly one `:` is refused as malformed |
| Sim.ParseConstraintShape | sim2yaml.py:9-11 | a token `left:right` is accepted exactly when, with parentheses removed, the left has one comma and the right two |
| Sim.ParseConstraintFields | sim2yaml.py:10-17 | the accepted token yields the quadratic text over `var{x}`, `var{y}` with the coefficients copied as text, and its differentials |
| Sim.ConstraintTokenRoundTrip | sim2yaml.py:7-17 | a token `(x,y):(a,b,c)` written from plain fields is read back as exactly those fields |
| Sim.Unparen | sim2yaml.py:10-11 | removing parentheses leaves none and keeps every comma and colon |
| Sim.ConfigEntry | sim2yaml.py:25-26 | a line yields its text before the first `=` and the stripped text after it exactly when it contains `=`; otherwise the line is reported as malformed |
| Sim.ParseConfigLastWins | sim2yaml.py:24-27 | a key keeps the value of the last line that assigns it |
| Sim.ParseConfigMissing | sim2yaml.py:24-27 | a key no line assigns is absent from the configuration |
| Sim.ConfigLineRoundTrip | sim2yaml.py:25-26 | a line `key=value` read back gives the key and the value |
| Sim.Lookup | sim2yaml.py:36 | indexing the configuration succeeds exactly when the key is present, and otherwise fails with that key |
| Sim.ParseDomainToken | sim2yaml.py:39 | a domain token without exactly one `:` is refused as malformed |
| Sim.DomainTokenRoundTrip | sim2yaml.py:39-41 | a token `id:v1,...,vn` read back yields the id and the integers |
| Sim.IntValuesRoundTrip | sim2yaml.py:41 | `int` applied to each comma-separated rendering gives back the integers |
| Sim.DomainsTextRoundTrip | sim2yaml.py:36-43 | a space-separated `domains` value read back yields every declaration in order |
| Sim.DomainsLastWins | sim2yaml.py:40-42 | an agent declared more than once gets the values of its last declaration |
| Sim.DomainOfAgent | sim2yaml.py:40-43 | every collected agent id has a domain `d{id}` |
| Sim.VariablesUseDeclaredDomains | sim2yaml.py:47-51 | every variable refers to a domain that is declared |
| Sim.VariableOfAgent | sim2yaml.py:47-51 | `var{id}` is present, with domain `d{id}`, exactly when `id` was declared |
| Sim.AgentOfId | sim2yaml.py:66 | `a{id}` is present, with id `id`, exactly when `id` was declared |
| Sim.DomainsInOrder | sim2yaml.py:35-43 | with distinct ids, the domains are the declarations in file order |
| Sim.VariablesInOrder | sim2yaml.py:47-51 | with distinct ids, the variables follow the ids in order |
| Sim.AgentsInOrder | sim2yaml.py:66 | with distinct ids, the agents follow the ids in order |
| Sim.ConstraintNameInjective | sim2yaml.py:58 | the names `c{n}` of different positions differ |
| Sim.BuildConstraintsInOrder | sim2yaml.py:55-62 | the constraint table holds one entry per token, the i-th named `c{i}`, because each new name is fresh |
| Sim.ParseConstraintsPositions | sim2yaml.py:56-62 | the i-th `>`-separated token of `cons` is the constraint `c{i}` |
| Sim.CommandEvents | sim2yaml.py:84-95 | an agent command yields two events exactly when it has one `:`, and otherwise names the command as malformed |
| Sim.CommandEventsOf | sim2yaml.py:84-95 | `kind:agent` becomes the action `kind` on `a{agent}` as event `e{i}`, followed by the pause `w{i+1}` of 12 |
| Sim.EventsOk | sim2yaml.py:82-84 | the scenario is produced exactly when every agent command has one `:` |
| Sim.EventsError | sim2yaml.py:82-84 | a failed scenario reports the first malformed agent command |
| Sim.EventsShape | sim2yaml.py:78-95 | the scenario opens with `w0` of delay 1 and holds two events per agent command |
| Sim.EventsAt | sim2yaml.py:82-95 | the events of the i-th command follow those of the agent commands before it |
| Sim.ConvertWithoutDomains | sim2yaml.py:36 | a file that never assigns `domains` fails with that missing key |
| Sim.ConvertConstraints | sim2yaml.py:55-63 | the problem's constraints are the `cons` tokens in order, the i-th named `c{i}` |
| Sim.ConvertVariablesHaveDomains | sim2yaml.py:35-52 | every variable of a converted problem refers to one of its domains |
| Sim.ConvertAgentsMatchVariables | sim2yaml.py:47-66 | a converted problem has `var{id}` exactly when it has `a{id}` |
| Text.JoinSplit | pdcop2yaml.py:14 | joining the pieces of a split with the separator gives the text back, so splitting loses nothing |
| Pdcop.Classify | pdcop2yaml.py:24-66 | a clause is of each kind exactly when it mentions that kind's keyword and none tested before it; one mentioning no keyword is skipped |
| Pdcop.ParseClause | pdcop2yaml.py:22-71 | a clause is skipped exactly when no keyword matches; otherwise what it contributes is of the kind its keywords select |
| Pdcop.Range | pdcop2yaml.py:28 | the domain is the integers from `lo` to `hi`, both included, and is empty when `lo > hi` |
| Pdcop.BoundsRoundTrip | pdcop2yaml.py:27 | a bound pair written as a tuple, a list or a bare pair reads back as the pair exactly when the surrounding whitespace is whitespace `eval` accepts, and is otherwise an invalid literal |
| Pdcop.ParseVariable | pdcop2yaml.py:25-33 | an accepted variable clause is named by the second `_`-token of its stripped left side; a clause without `=` is malformed |
| Pdcop.VariableRoundTrip | pdcop2yaml.py:25-28 | an indented `decision_x = (lo,hi)` or `random_x = (lo,hi)` clause reads back as `x` with the range `lo..hi` |
| Pdcop.VariableClauseKind | pdcop2yaml.py:24-30 | such a clause is classified as the variable kind it was written for |
| Pdcop.VariableClauseRoundTrip | pdcop2yaml.py:24-33 | through classification, an indented `decision_x = (lo,hi)` or `random_x = (lo,hi)` clause contributes that variable with that range and kind |
| Pdcop.ComponentsVariableListed | pdcop2yaml.py:30-33 | after a successful parse, every variable clause's variable is in the list of its kind |
| Pdcop.AssembleVariables | pdcop2yaml.py:30-33 | the variable lists are the clauses' variables of each kind, in clause order |
| Pdcop.ParseEntry | pdcop2yaml.py:48-50 | an accepted entry has one value fewer than it has fields |
| Pdcop.EntryRoundTrip | pdcop2yaml.py:48-50 | the entry `v1,...,vn,u` reads back as utility `u` and values `v1..vn` |
| Pdcop.NonBlank | pdcop2yaml.py:45-47 | every kept entry is a non-blank entry of the input, and every non-blank entry is kept |
| Pdcop.NonBlankConcat | pdcop2yaml.py:45-47 | filtering a concatenation filters each part and keeps the parts in order |
| Pdcop.NonBlankSingle | pdcop2yaml.py:46-47 | a single entry is kept exactly when it is not blank; with the concatenation rule, the kept entries are the non-blank ones, each as often as it occurs, in input order |
| Pdcop.NonBlankKeepsAll | pdcop2yaml.py:45-47 | entries none of which is blank are all kept, in order |
| Pdcop.TableSegments | pdcop2yaml.py:43 | a bracketed table closed by `|` splits into its entries and one empty segment |
| Pdcop.TableRoundTrip | pdcop2yaml.py:43-50 | a written value table, surrounded by any whitespace, reads back as exactly its rows |
| Pdcop.GroupGet | pdcop2yaml.py:51-54 | a utility maps to exactly the assignments that have it, in entry order, and is absent when none has it |
| Pdcop.GroupKeys | pdcop2yaml.py:51-54 | the utilities appear in order of first occurrence |
| Pdcop.GroupTotal | pdcop2yaml.py:51-54 | the groups together hold every assignment exactly once |
| Pdcop.ParseConstraintClause | pdcop2yaml.py:37-58 | an accepted constraint clause names two variables; a clause without `=` is malformed |
| Pdcop.ConstraintClauseKey | pdcop2yaml.py:38-58 | a constraint is filed under its stripped left side and constrains its last two `_`-tokens |
| Pdcop.ConstraintTotal | pdcop2yaml.py:43-56 | the value table holds one assignment per non-blank entry |
| Pdcop.ConstraintClauseRoundTrip | pdcop2yaml.py:37-58 | an indented `constraint_x_y = [..|..|]` clause reads back as variables `[x, y]` with the rows grouped by utility, filed under `constraint_x_y` |
| Pdcop.ConstraintClauseKind | pdcop2yaml.py:36 | such a clause without the variable keywords is classified as a constraint |
| Pdcop.AssembleConstraints | pdcop2yaml.py:58 | the constraint table is the clauses' assignments in order, a later one replacing an earlier one with the same key |
| Pdcop.ComponentsConstraintLastWins | pdcop2yaml.py:58 | a constraint clause not overridden later is the one stored under its key |
| Pdcop.ComponentsConstraintFiled | pdcop2yaml.py:58 | after a successful parse, every constraint clause's stripped left side is a key of the constraints |
| Pdcop.SubjectOf | pdcop2yaml.py:61-71 | whatever precedes it, the text after the last `_` names the variable |
| Pdcop.ParseDistribution | pdcop2yaml.py:61-63 | an accepted distribution is filed under the last `_`-token of the stripped clause's left side; a clause without `=` is malformed |
| Pdcop.ComponentsDistributionLastWins | pdcop2yaml.py:63 | a distribution clause not overridden later is the one stored for its variable |
| Pdcop.ComponentsDistributionFiled | pdcop2yaml.py:63 | after a successful parse, every distribution clause's variable is a key of the distributions |
| Pdcop.AssembleDistributions | pdcop2yaml.py:63 | the distribution table is the clauses' assignments in order, the last one for a variable winning |
| Pdcop.ParseTransition | pdcop2yaml.py:66-71 | an accepted matrix is filed under the last `_`-token of the stripped clause's left side and has one row fewer than the right side has `\|`-segments; a clause without `=` is malformed |
| Pdcop.ComponentsTransitionLastWins | pdcop2yaml.py:71 | a transition clause not overridden later is the matrix stored for its variable |
| Pdcop.ComponentsTransitionFiled | pdcop2yaml.py:71 | after a successful parse, every transition clause's variable is a key of the matrices |
| Pdcop.AssembleTransitions | pdcop2yaml.py:71 | the matrix table is the clauses' assignments in order, the last one for a variable winning |
| Numerals.IntRoundTrip | sim2yaml.py:41 | `int` reads a rendered integer, surrounded by any whitespace, as that integer |
| Numerals.LiteralRoundTrip | pdcop2yaml.py:49-50 | `eval` reads a rendered integer as that integer exactly when the whitespace around it is whitespace `eval` accepts, and refuses it otherwise |
| Numerals.EvalLeadGap | pdcop2yaml.py:49-50 | whitespace `eval` accepts before an expression holds only spaces, tabs, form feeds and line breaks |
| Numerals.EvalLeadBlanks | pdcop2yaml.py:49-50 | leading spaces and tabs alone are always accepted, since `eval` drops them |
| Numerals.EvalLeadIndent | pdcop2yaml.py:49-50 | a line break followed by an indented line is refused, as Python's unexpected indent |
| Numerals.IntAcceptsLeadingZeros | sim2yaml.py:41 | `int` accepts leading zeros and ignores them |
| Numerals.LiteralRefusesLeadingZeros | pdcop2yaml.py:49-50 | the literal reader refuses leading zeros before a non-zero number |
| Numerals.LiteralAcceptsZeros | pdcop2yaml.py:49-50 | the literal reader accepts a run of zeros, signed or not, as zero |
| Numerals.ListRoundTrip | pdcop2yaml.py:27 | a list display of integers reads back as its items exactly when the whitespace around it is whitespace `eval` accepts |
| Numerals.TupleRoundTrip | pdcop2yaml.py:27 | a parenthesised tuple of two or more integers reads back as its items exactly when its padding is accepted |
| Numerals.BareTupleRoundTrip | pdcop2yaml.py:27 | a bare comma-separated tuple of two or more integers reads back as its items exactly when its padding is accepted |
| Numerals.ListLineBreak | pdcop2yaml.py:69 | a line break between two items inside brackets is skipped |
| Numerals.BareLineBreak | pdcop2yaml.py:27 | a line break between two items of a bare tuple makes the text unreadable |
| Numerals.ParseDecimal | pdcop2yaml.py:61-69 | a number that is an integer literal reads as that integer with scale zero |

## Left out

- File reading and writing, `os.makedirs`, the YAML serialisation (`oyaml`),
  `print`, `argparse` and the `main` functions are not modelled. The model
  starts from the file's lines or text and ends at the data that would be
  serialised.
- Sim.Convert: the problem name from `--name` is a parameter. The output file
  paths built from the input path are not modelled.
- The D-DCOP scenario generation with its random shuffle, and the static PDCOP
  serialiser, are not part of this model.
- Errors are collapsed into three kinds: malformed clause, invalid literal and
  missing key. Python's distinct `ValueError`, `IndexError`, `KeyError`,
  `TypeError` and `SyntaxError` are not distinguished.
- Pdcop.LiteralValue: utilities and assignment values are integer literals
  only. A utility of `0.5` is refused, so the collapse of an integer and a
  float utility that are numerically equal is not modelled.
- Pdcop.ParseEntry: the same integer-only restriction applies to each field of
  an entry.
- Numerals.ParseDecimal: no exponent literals (`1e-3`), and values are exact
  decimals rather than binary floats.
- Numerals.ParseSequence: only literal displays are read, not general Python
  expressions. A single parenthesised or bare number is not read as a
  sequence. So a distribution given as one number, which `eval` would turn
  into a number, is refused. Nested displays are refused too.
- Numerals.ParseSequence: comments and backslash line continuations, which
  `eval` skips, are refused.
- Numerals.ParseIntToken: only decimal integer literals are read. Hexadecimal,
  octal and binary literals (`0x1F`, `0o7`, `0b1`) and `_`-grouped digits
  (`1_000`), which `eval` accepts, are refused, so `decision_x = (0x1, 0x5)` is
  an invalid literal here. The same holds for the digits of a
  `Numerals.ParseDecimal` number (`1_0.5`).
- Numerals.ParseInt: `int()` is modelled without `_` digit separators and
  without non-ASCII digits.
- Pdcop.ParseDistribution: a distribution's values are exact decimals, and an
  integer item keeps scale zero instead of staying a Python `int`.
