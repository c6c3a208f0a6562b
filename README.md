# Memory Box search and secret masking, in Dafny

Memory Box stores shell commands in a Neo4j graph and finds them again. This project models
three parts of its `Neo4jClient` module (`memory_box/database.py`):

- **Query building** (`Cypher`). `search_commands` turns its optional filters into the text
  of a Cypher query and a parameter dictionary:
  - the free-text query, the operating system, the project type and the category each add
    one WHERE clause and one parameter;
  - tags add a MATCH/WITH block;
  - the where clause is the clauses joined by `AND`, behind `WHERE`, or behind `WITH c` and
    a `WHERE` when the tag block precedes it.
- **Fuzzy ranking** (`Ranking`). In fuzzy mode with a non-empty query, every record the
  store returned is scored: the larger of `partial_ratio` against the lower-cased command
  and against the lower-cased description. Records scoring at least the threshold are kept.
  They are sorted by (score, use count) from highest to lowest with Python's stable sort,
  and cut to the first `limit`.
- **Secret masking** (`Secrets`). `_obfuscate_secrets` applies thirteen case-insensitive
  regular-expression substitutions in order, then strips trailing whitespace. The
  substitution for a password flag followed by an unquoted value (the third one) is
  modelled concretely, character by character. The regular-expression engine behind the
  other twelve is a parameter.

`Text` holds the parts of Python's `str` these rely on: `lower`, `rstrip`, `isspace` and
`join`. `Records` holds the record type and Python truthiness of optional strings.

The similarity function and the store are function parameters. Each theorem holds for
every scorer whose results lie in [0, 100], and for every store. The run of the query is
the call `run(cypher, params)`. Its answer is taken as the candidate list.

Lines 162-167 of `search_commands` add the case-sensitive `CONTAINS $query` clause
whenever a query is given, whatever `fuzzy` is. So the fuzzy stage only re-ranks and trims
records whose command, description or context already contains the query.
`Cypher.FilterClausesSupplied` states that the query clause is present exactly when a
query is given. None of the query-building members take the fuzzy flag.

The source's literal texts are kept as constants, character for character:
- `Secrets.Rules` holds the thirteen (pattern, replacement) pairs of lines 27-47, verbatim
  and in list order. `Secrets.FlagValueRule` is the third of them (line 32), and
  `Secrets.Flags` lists its alternatives in the order they are tried.
- `Cypher.QueryClause`, `OsClause`, `ProjectTypeClause` and `CategoryClause` are the
  clauses of lines 163-178.
- `Cypher.TagMatch` is the triple-quoted tag block of lines 183-188.
- `Cypher.QueryHead`, `QueryMiddle` and `QueryTail` are the fixed parts of the f-string
  at lines 199-208.
- `Cypher.WherePrefix`, `WithWherePrefix` and `Conjunction` are the literals of lines
  195-197.

## Model

| member | source | states |
|---|---|---|
| Records.Truthy | memory_box/database.py:162-177 | `if query:` and the other filter checks (lines 162, 169, 173, 177), and the `query` of the fuzzy guard at line 234: None and the empty string are both false |
| Text.Lower | memory_box/database.py:238-241 | `str.lower()`: same length, each character lower-cased |
| Text.IsSpace | memory_box/database.py:54 | the characters `str.isspace()` accepts, which `rstrip()` removes at line 54 and which `\s` matches at line 32: the Unicode whitespace code points, listed one by one |
| Text.LowerIdempotent | memory_box/database.py:238-241 | lower-casing twice is lower-casing once |
| Text.RStrip | memory_box/database.py:54 | `rstrip()` returns a prefix, that prefix does not end in whitespace, and everything it dropped is whitespace |
| Text.Join | memory_box/database.py:195-197 | `sep.join(parts)`: the parts in order with one separator between neighbours; JoinPartAt, JoinSepAt and JoinEnd state its layout |
| Text.JoinPartAt | memory_box/database.py:192-195 | `" AND ".join(...)` places each clause, unchanged, at its offset |
| Text.JoinSepAt | memory_box/database.py:192-195 | every clause but the last is followed by exactly one separator, and the next clause starts right after it |
| Text.JoinEnd | memory_box/database.py:192-195 | the joined text ends where the last clause ends |
| Ranking.MaxScore | memory_box/database.py:238-242 | `max(cmd_score, desc_score)`: at least both ratios and equal to one of them |
| Ranking.Passes | memory_box/database.py:244 | `max_score >= fuzzy_threshold`: the float score compared with the integer threshold |
| Ranking.Key | memory_box/database.py:248-249 | the sort key `(x[0], x[1].use_count)`: score first, then use count |
| Ranking.AtLeast | memory_box/database.py:248-249 | Python's lexicographic tuple comparison of two keys, `key(x) >= key(y)` |
| Ranking.SortedDesc | memory_box/database.py:248-249 | what `reverse=True` asks for: every entry's key is at least that of every later entry |
| Ranking.WithKey | memory_box/database.py:248-249 | the entries that have one given key, in list order; this is how stability is stated |
| Ranking.Survivors | memory_box/database.py:235-245 | every kept entry is a candidate, carries that candidate's own score and reaches the threshold; every candidate that reaches it is kept; no candidate is kept more often than it was given |
| Ranking.SurvivorsStep | memory_box/database.py:236-245 | unfolding step of Survivors: one more iteration appends the candidate, with its score, exactly when it reaches the threshold |
| Ranking.SurvivorsInOrder | memory_box/database.py:235-245 | the kept entries follow candidate order: they sit at strictly increasing positions of the candidate list, each holding that candidate's command |
| Ranking.Insert | memory_box/database.py:248-249 | one step of the stable descending sort: the entry goes in front of the first entry whose key it matches or exceeds; the Insert lemmas state its properties |
| Ranking.SortDesc | memory_box/database.py:248-249 | `scored_commands.sort(key=lambda x: (x[0], x[1].use_count), reverse=True)` as a stable insertion sort; the SortDesc lemmas state its properties |
| Ranking.ScoreCandidates | memory_box/database.py:235-245 | the scoring loop yields exactly the survivors, in candidate order |
| Ranking.InsertPermutes | memory_box/database.py:248-249 | inserting adds the new entry and nothing else |
| Ranking.InsertCmds | memory_box/database.py:248-249 | inserting adds the new entry's command and no other command |
| Ranking.InsertSorted | memory_box/database.py:248-249 | inserting into a list sorted by descending key keeps it sorted |
| Ranking.InsertWithKey | memory_box/database.py:248-249 | an inserted entry lands before every existing entry with the same key; inserting the input from last to first is what keeps the descending sort stable |
| Ranking.SortDescSorted | memory_box/database.py:248-249 | `sort(key=(score, use_count), reverse=True)` orders entries from the highest key to the lowest |
| Ranking.SortDescPermutes | memory_box/database.py:248-249 | the sort is a permutation of its input |
| Ranking.SortDescCmds | memory_box/database.py:248-249 | the sort keeps the multiset of commands |
| Ranking.SortDescStable | memory_box/database.py:248-249 | the sort is stable: entries with equal keys keep their input order |
| Ranking.SliceTo | memory_box/database.py:250 | `s[:n]` is a prefix of s |
| Ranking.SliceToLength | memory_box/database.py:250 | `s[:n]` has min(n, len) elements for n >= 0, and max(0, len + n) for n < 0 |
| Ranking.Cmds | memory_box/database.py:250 | `[cmd for _, cmd in ...]`: one command per entry, in order (same length as its input) |
| Ranking.TopScored | memory_box/database.py:248-250 | the survivors sorted, then cut to `[:limit]` |
| Ranking.Ranked | memory_box/database.py:248-250 | the commands of TopScored, which is what the fuzzy stage returns; the Ranked lemmas state its properties |
| Ranking.RankedMembers | memory_box/database.py:233-250 | every returned command was a candidate and reaches the threshold |
| Ranking.RankedComplete | memory_box/database.py:233-250 | when the limit is at least the number of survivors, every candidate that reaches the threshold is returned |
| Ranking.RankedLength | memory_box/database.py:248-250 | the result has min(limit, survivors) commands, or survivors + limit (at least 0) for a negative limit, and is a prefix of the sorted survivors |
| Ranking.RankedOrdered | memory_box/database.py:248-250 | the result is ordered by (score, use_count), highest first |
| Ranking.RankedOutranksLeftOut | memory_box/database.py:248-250 | a candidate that reaches the threshold but is cut by the limit ranks no higher than any returned command |
| Ranking.RankedPosition | memory_box/database.py:248-250 | a returned command sits in the kept prefix of the sorted survivors with its own score |
| Ranking.LeftOutPosition | memory_box/database.py:248-250 | a passing candidate that is not returned sits after the kept prefix |
| Ranking.RankedStable | memory_box/database.py:248-250 | for each key, the returned entries with that key are the first survivors with that key, in candidate order (by SurvivorsInOrder); all of them when the limit is at least the number of survivors |
| Ranking.RankedFromCandidates | memory_box/database.py:233-250 | the result is a sub-multiset of the candidates: nothing is invented or duplicated |
| Ranking.RankedDistinct | memory_box/database.py:233-250 | distinct candidates give distinct results |
| Ranking.RankedIgnoresQueryCase | memory_box/database.py:238-241 | two queries equal up to case give the same result |
| Ranking.RankCandidates | memory_box/database.py:233-252 | the fuzzy stage returns the candidates untouched unless fuzzy mode, a non-empty query and at least one candidate are all present; otherwise it returns exactly the ranked result |
| Cypher.AddFilters | memory_box/database.py:159-179 | the four filter checks produce exactly the clause list and the parameters of the supplied filters |
| Cypher.BuildQuery | memory_box/database.py:159-197 | the clause list, the parameters, the tag block and the where clause are those the filters call for |
| Cypher.FilterClauses | memory_box/database.py:159-179 | `where_clauses` after the four filter checks: one clause per truthy filter, in the order query, os, project_type, category |
| Cypher.FilterValues | memory_box/database.py:160-179 | `params` after the four filter checks: `limit`, then one entry per truthy filter |
| Cypher.FilterParams | memory_box/database.py:160-189 | `params` after the tag check: FilterValues, plus `tags` when tags are given |
| Cypher.HasTags | memory_box/database.py:182 | `if tags:` for an optional list: neither None nor empty |
| Cypher.WhereClause | memory_box/database.py:191-197 | `where_clause`: empty without clauses, otherwise the clauses joined by ` AND ` behind `WHERE` or behind `WITH c` and a `WHERE` |
| Cypher.CypherText | memory_box/database.py:199-208 | the f-string `cypher_query`: the fixed head, the tag block, the where clause and the fixed tail |
| Cypher.FilterClausesSupplied | memory_box/database.py:162-179 | a filter's clause is present exactly when that filter is supplied, and there is one clause per supplied filter |
| Cypher.FilterClausesOrdered | memory_box/database.py:162-179 | only the four known clauses appear, strictly in the order query, os, project_type, category |
| Cypher.FilterParamsKeys | memory_box/database.py:160-190 | the parameter keys are `limit` plus exactly the supplied filters (and `tags` when tags are given) |
| Cypher.FilterParamsValues | memory_box/database.py:160-190 | each parameter holds the value given for it |
| Cypher.OptParamKeeps | memory_box/database.py:162-179 | setting one parameter leaves the others unchanged |
| Cypher.WhereClauseShape | memory_box/database.py:191-197 | the where clause is empty exactly when no filter is supplied; otherwise it is `WHERE`, or `WITH c` and a `WHERE` when tags are given, followed by the clauses joined by ` AND ` |
| Cypher.SearchCommands | memory_box/database.py:159-252 | the query and parameters sent to the store are the built ones; the answer comes back untouched or ranked per the fuzzy rule, and is a sub-multiset of what the store returned |
| Secrets.ObfuscateSecrets | memory_box/database.py:49-54 | the result is every substitution applied in list order, then `rstrip`; it never ends in whitespace; it is the stripped input when no substitution changes the input |
| Secrets.ApplyRule | memory_box/database.py:51-52 | one `re.sub` pass: the concrete MaskFlagValues for the flag-and-value pattern, the parameter `sub` for the others |
| Secrets.ApplyRules | memory_box/database.py:49-52 | the loop over `patterns`: the passes applied left to right |
| Secrets.ApplyRulesConcat | memory_box/database.py:49-52 | applying two lists of substitutions in turn is applying their concatenation |
| Secrets.ApplyRulesUnchanged | memory_box/database.py:49-52 | when no substitution changes the text, the whole list leaves it unchanged |
| Secrets.FlagValuePassInPlace | memory_box/database.py:27-52 | masking is the two quoted-flag substitutions, then the unquoted flag-value substitution, then the ten others |
| Secrets.SpaceRunExact | memory_box/database.py:32 | `\s+` takes the whole whitespace stretch |
| Secrets.TokenRunExact | memory_box/database.py:32 | `\S+` takes the whole non-whitespace stretch |
| Secrets.WrittenAt | memory_box/database.py:32 | a flag of the group written at a position, in any ASCII letter case (`re.IGNORECASE`) |
| Secrets.SpaceRun | memory_box/database.py:32 | greedy `\s+`: the number of whitespace characters from a position, ending inside the text |
| Secrets.TokenRun | memory_box/database.py:32 | greedy `\S+`: the number of non-whitespace characters from a position, ending inside the text |
| Secrets.MatchAt | memory_box/database.py:32 | the match of `(-p\|--password\|--pass\|--pwd)\s+\S+` at a position: the alternatives in order, each in any ASCII letter case, followed by greedy whitespace and a greedy value; a match is longer than its flag and ends inside the text |
| Secrets.SubFrom | memory_box/database.py:32 | `re.sub` scanning left to right from a position: at each match the flag is kept and `" ****"` replaces the rest, and scanning resumes after the match |
| Secrets.MaskFlagValues | memory_box/database.py:32 | the third pass, `re.sub` of `(-p\|--password\|--pass\|--pwd)\s+\S+` by `\1 ****`, over the whole text; the lemmas below state its effect |
| Secrets.SubFromNoMatch | memory_box/database.py:32 | unfolding step of SubFrom: where no flag matches, `re.sub` copies one character and moves on |
| Secrets.SubFromMatch | memory_box/database.py:32 | unfolding step of SubFrom: at a match, `re.sub` keeps the flag group, writes `" ****"` and resumes after the match |
| Secrets.NoMatchWithoutDash | memory_box/database.py:32 | no match starts at a character other than `-` |
| Secrets.SkipWithoutDash | memory_box/database.py:32 | a stretch without `-` is copied through unchanged |
| Secrets.MaskWithoutDash | memory_box/database.py:32 | a command without `-` passes the flag-value substitution unchanged |
| Secrets.TakeFlag | memory_box/database.py:32 | unfolding step of MatchAt: the first flag alternative, written at a position and followed by whitespace and a value, is the match |
| Secrets.FirstWrittenMatches | memory_box/database.py:32 | the alternatives `(-p\|--password\|--pass\|--pwd)` are tried in order, and the first one written there wins |
| Secrets.EarlierFlagAbsent | memory_box/database.py:32 | when a later flag is written, followed by whitespace, no earlier alternative is written at the same position |
| Secrets.EarlierFlagsAbsent | memory_box/database.py:32 | the same, for all earlier alternatives at once |
| Secrets.FirstFlagMatches | memory_box/database.py:32 | a flag written in any ASCII letter case, followed by whitespace and a value, matches with that flag and ends at the end of the value |
| Secrets.FlagValueMasked | memory_box/database.py:32 | with no other `-` in the text, a flag followed by whitespace and a value is kept as typed, the whitespace and value become `" ****"`, and nothing else changes |

## Left out

- The Neo4j driver is not modelled: the session, the query run and the conversion of
  result records (lines 210-231). The store is a function parameter. The ORDER BY and
  LIMIT that the database applies are part of the query text, but their effect is not
  modelled: the store may return any list.
- Ranking.RankedOutranksLeftOut and Ranking.LeftOutPosition describe the `[:limit]` cut at
  line 250 for any candidate list. Through `search_commands` that cut never removes
  anything. The query ends in `LIMIT $limit` (line 206), so for a limit of zero or more the
  store returns at most `limit` records. Neo4j rejects a negative LIMIT, so the
  negative-slice branch of `SliceTo` and `RankedLength` is not reachable through this
  path either.
- Cypher.SearchCommands takes every argument explicitly. The defaults of
  `search_commands` (lines 141-143: `limit=10`, `fuzzy=False`, `fuzzy_threshold=60`, and
  None for the filters) are not modelled.
- The internals of `fuzz.partial_ratio` are not modelled. The scorer is a parameter,
  constrained only to return a value from 0 to 100.
- The regular-expression engine is not modelled for twelve of the thirteen substitutions.
  Their patterns and replacements are kept as data. Each application is a call of a
  parameter `sub(rule, text)`.
- Secrets.MaskFlagValues: the case-insensitive match of the flag letters is ASCII-only.
  Python's `re.IGNORECASE` also lets a few non-ASCII letters match ASCII ones (for
  example U+017F, long s, matches `s`).
- Text.Lower: `str.lower()` is modelled for ASCII letters only. Non-ASCII case mappings
  are not modelled.
- Secrets.FlagValueMasked: it is stated for text with no other `-` before the flag or
  after the value. Repeated flags are covered by SubFromMatch and SubFromNoMatch step by
  step, not by a closed-form lemma.
- Timestamps are not modelled: the Neo4j DateTime conversion (lines 16-20), `created_at`
  and `last_used`. Records carry them as opaque integers, and the ranking never reads
  them.
- The other client operations are outside this model: connection set-up, schema
  creation, adding, fetching and deleting commands, and listing tags and categories.
  UUID generation belongs to adding a command and is outside too. `__init__.py` is not
  part of this model.
- `memory_box/config.py` and `memory_box/models.py` are not part of this model beyond the
  fields of `CommandWithMetadata` that the search reads.
