/** The query that Neo4jClient.search_commands sends to the store, and the whole
    search: build the query, run it, then apply the fuzzy stage. */
module Cypher {
  import opened Records
  import opened Text
  import opened Ranking

  /** A value in the parameter dictionary handed to the store with the query. */
  datatype ParamValue = IntValue(n: int) | TextValue(text: string) | ListValue(items: seq<string>)

  const QueryClause: string := "(c.command CONTAINS $query OR c.description CONTAINS $query OR c.context CONTAINS $query)"
  const OsClause: string := "c.os = $os"
  const ProjectTypeClause: string := "c.project_type = $project_type"
  const CategoryClause: string := "c.category = $category"

  /** The order in which the filters are examined. */
  const ClauseOrder: seq<string> := [QueryClause, OsClause, ProjectTypeClause, CategoryClause]

  /** The MATCH block that keeps only the commands carrying every requested tag. */
  const TagMatch: string :=
    "\n            MATCH (c)-[:TAGGED_WITH]->(t:Tag)\n            WHERE t.name IN $tags\n"
    + "            WITH c, count(t) as tag_count\n            WHERE tag_count = size($tags)\n            "

  const Conjunction: string := " AND "
  const WherePrefix: string := "WHERE "
  /** After the tag block a WITH is needed before a new WHERE. */
  const WithWherePrefix: string := "WITH c\nWHERE "

  /** `if tags:` for an argument of type `list[str] | None`. */
  predicate HasTags(tags: Option<seq<string>>) {
    tags.Some? && tags.value != []
  }

  /** The clause of a filter if it was supplied, nothing otherwise. */
  function Opt(supplied: bool, clause: string): seq<string> {
    if supplied then [clause] else []
  }

  /** where_clauses after the four filter checks. */
  function FilterClauses(query: Option<string>, os: Option<string>, projectType: Option<string>,
                         category: Option<string>): seq<string> {
    Opt(Truthy(query), QueryClause) + Opt(Truthy(os), OsClause)
    + Opt(Truthy(projectType), ProjectTypeClause) + Opt(Truthy(category), CategoryClause)
  }

  /** The parameter `name` set to the filter value if it was supplied. */
  function OptParam(params: map<string, ParamValue>, value: Option<string>, name: string): map<string, ParamValue> {
    if Truthy(value) then params[name := TextValue(value.value)] else params
  }

  /** params after the four filter checks: the limit, then one entry per supplied filter. */
  function FilterValues(query: Option<string>, os: Option<string>, projectType: Option<string>,
                        category: Option<string>, limit: int): map<string, ParamValue> {
    OptParam(OptParam(OptParam(OptParam(map["limit" := IntValue(limit)],
      query, "query"), os, "os"), projectType, "project_type"), category, "category")
  }

  /** params after all checks, the tags included. */
  function FilterParams(query: Option<string>, os: Option<string>, projectType: Option<string>,
                        category: Option<string>, tags: Option<seq<string>>, limit: int): map<string, ParamValue> {
    var p := FilterValues(query, os, projectType, category, limit);
    if HasTags(tags) then p["tags" := ListValue(tags.value)] else p
  }

  /** where_clause: empty without clauses, otherwise the clauses joined by AND behind
      WHERE, itself behind a WITH when the tag block precedes it. */
  function WhereClause(clauses: seq<string>, hasTags: bool): string {
    if clauses == [] then ""
    else (if hasTags then WithWherePrefix else WherePrefix) + Join(Conjunction, clauses)
  }

  /** The text before the tag block. */
  const QueryHead: string := "\n        MATCH (c:Command)\n        "
  /** The text between the tag block and the where clause. */
  const QueryMiddle: string := "\n        "
  /** The text after the where clause: collect the tags, order, limit, return. */
  const QueryTail: string :=
    "\n        OPTIONAL MATCH (c)-[:TAGGED_WITH]->(t:Tag)\n        WITH c, collect(t.name) as tags\n"
    + "        ORDER BY c.use_count DESC, c.created_at DESC\n        LIMIT $limit\n        RETURN c, tags\n        "

  /** The f-string that wraps the tag block and the where clause into the full query. */
  function CypherText(tagMatch: string, whereClause: string): string {
    QueryHead + tagMatch + QueryMiddle + whereClause + QueryTail
  }

  /** The four filter checks of search_commands: each supplied filter adds its clause
      and its parameter. */
  method AddFilters(query: Option<string>, os: Option<string>, projectType: Option<string>,
                    category: Option<string>, limit: int)
    returns (clauses: seq<string>, params: map<string, ParamValue>)
    ensures clauses == FilterClauses(query, os, projectType, category)
    ensures params == FilterValues(query, os, projectType, category, limit)
  {
    clauses := [];
    params := map["limit" := IntValue(limit)];

    if Truthy(query) {
      clauses := clauses + [QueryClause];
      params := params["query" := TextValue(query.value)];
    }
    ghost var p1 := OptParam(map["limit" := IntValue(limit)], query, "query");
    assert clauses == Opt(Truthy(query), QueryClause) && params == p1;
    if Truthy(os) {
      clauses := clauses + [OsClause];
      params := params["os" := TextValue(os.value)];
    }
    ghost var p2 := OptParam(p1, os, "os");
    assert clauses == Opt(Truthy(query), QueryClause) + Opt(Truthy(os), OsClause) && params == p2;
    if Truthy(projectType) {
      clauses := clauses + [ProjectTypeClause];
      params := params["project_type" := TextValue(projectType.value)];
    }
    ghost var p3 := OptParam(p2, projectType, "project_type");
    assert clauses == Opt(Truthy(query), QueryClause) + Opt(Truthy(os), OsClause)
                      + Opt(Truthy(projectType), ProjectTypeClause);
    assert params == p3;
    if Truthy(category) {
      clauses := clauses + [CategoryClause];
      params := params["category" := TextValue(category.value)];
    }
  }

  /** The query building of search_commands: the filters, then the tag block, then the
      where clause. */
  method BuildQuery(query: Option<string>, os: Option<string>, projectType: Option<string>,
                    category: Option<string>, tags: Option<seq<string>>, limit: int)
    returns (clauses: seq<string>, params: map<string, ParamValue>, tagMatch: string, whereClause: string)
    ensures clauses == FilterClauses(query, os, projectType, category)
    ensures params == FilterParams(query, os, projectType, category, tags, limit)
    ensures tagMatch == if HasTags(tags) then TagMatch else ""
    ensures whereClause == WhereClause(clauses, HasTags(tags))
  {
    clauses, params := AddFilters(query, os, projectType, category, limit);

    tagMatch := "";
    if HasTags(tags) {
      tagMatch := TagMatch;
      params := params["tags" := ListValue(tags.value)];
    }

    whereClause := "";
    if clauses != [] {
      if tagMatch != "" {
        whereClause := WithWherePrefix + Join(Conjunction, clauses);
      } else {
        whereClause := WherePrefix + Join(Conjunction, clauses);
      }
    }
  }

  /** The position of a clause in ClauseOrder (4 for any other text). */
  function Rank(clause: string): nat {
    if clause == QueryClause then 0
    else if clause == OsClause then 1
    else if clause == ProjectTypeClause then 2
    else if clause == CategoryClause then 3
    else 4
  }

  /** The four clause texts differ (their lengths do). */
  lemma ClausesDistinct()
    ensures QueryClause != OsClause && QueryClause != ProjectTypeClause && QueryClause != CategoryClause
    ensures OsClause != ProjectTypeClause && OsClause != CategoryClause && ProjectTypeClause != CategoryClause
  {
    assert |QueryClause| == 89 && |OsClause| == 10 && |ProjectTypeClause| == 30 && |CategoryClause| == 22;
  }

  /** A filter's clause is in where_clauses exactly when that filter was supplied. */
  lemma FilterClausesSupplied(query: Option<string>, os: Option<string>, projectType: Option<string>,
                              category: Option<string>)
    ensures var cs := FilterClauses(query, os, projectType, category);
      && ((QueryClause in cs) <==> Truthy(query))
      && ((OsClause in cs) <==> Truthy(os))
      && ((ProjectTypeClause in cs) <==> Truthy(projectType))
      && ((CategoryClause in cs) <==> Truthy(category))
      && |cs| == |Opt(Truthy(query), QueryClause)| + |Opt(Truthy(os), OsClause)|
                 + |Opt(Truthy(projectType), ProjectTypeClause)| + |Opt(Truthy(category), CategoryClause)|
  {
    ClausesDistinct();
  }

  /** where_clauses holds only the four clauses, in the order query, os, project_type,
      category. */
  lemma FilterClausesOrdered(query: Option<string>, os: Option<string>, projectType: Option<string>,
                             category: Option<string>)
    ensures var cs := FilterClauses(query, os, projectType, category);
      && (forall i :: 0 <= i < |cs| ==> cs[i] in ClauseOrder)
      && (forall i, j :: 0 <= i < j < |cs| ==> Rank(cs[i]) < Rank(cs[j]))
  {
    ClausesDistinct();
  }

  /** The parameters hold the limit always and exactly one entry per supplied filter. */
  lemma FilterParamsKeys(query: Option<string>, os: Option<string>, projectType: Option<string>,
                         category: Option<string>, tags: Option<seq<string>>, limit: int)
    ensures FilterParams(query, os, projectType, category, tags, limit).Keys ==
      {"limit"} + (if Truthy(query) then {"query"} else {}) + (if Truthy(os) then {"os"} else {})
      + (if Truthy(projectType) then {"project_type"} else {}) + (if Truthy(category) then {"category"} else {})
      + (if HasTags(tags) then {"tags"} else {})
  {
  }

  /** Each parameter holds the value that was given for it. */
  lemma FilterParamsValues(query: Option<string>, os: Option<string>, projectType: Option<string>,
                           category: Option<string>, tags: Option<seq<string>>, limit: int)
    ensures var p := FilterParams(query, os, projectType, category, tags, limit);
      && "limit" in p && p["limit"] == IntValue(limit)
      && (Truthy(query) ==> "query" in p && p["query"] == TextValue(query.value))
      && (Truthy(os) ==> "os" in p && p["os"] == TextValue(os.value))
      && (Truthy(projectType) ==> "project_type" in p && p["project_type"] == TextValue(projectType.value))
      && (Truthy(category) ==> "category" in p && p["category"] == TextValue(category.value))
      && (HasTags(tags) ==> "tags" in p && p["tags"] == ListValue(tags.value))
  {
    // the six keys differ in their first letter
    assert "limit"[0] == 'l' && "query"[0] == 'q' && "os"[0] == 'o';
    assert "project_type"[0] == 'p' && "category"[0] == 'c' && "tags"[0] == 't';
    var p0 := map["limit" := IntValue(limit)];
    var p1 := OptParam(p0, query, "query");
    var p2 := OptParam(p1, os, "os");
    var p3 := OptParam(p2, projectType, "project_type");
    OptParamKeeps(p0, query, "query", "limit");
    OptParamKeeps(p1, os, "os", "limit");
    OptParamKeeps(p1, os, "os", "query");
    OptParamKeeps(p2, projectType, "project_type", "limit");
    OptParamKeeps(p2, projectType, "project_type", "query");
    OptParamKeeps(p2, projectType, "project_type", "os");
    OptParamKeeps(p3, category, "category", "limit");
    OptParamKeeps(p3, category, "category", "query");
    OptParamKeeps(p3, category, "category", "os");
    OptParamKeeps(p3, category, "category", "project_type");
  }

  /** Setting one parameter leaves the others as they were. */
  lemma OptParamKeeps(params: map<string, ParamValue>, value: Option<string>, name: string, key: string)
    requires key != name
    ensures key in params ==> key in OptParam(params, value, name) && OptParam(params, value, name)[key] == params[key]
  {
  }

  /** The where clause is empty exactly when no filter was supplied; otherwise it
      starts with WHERE, or with WITH c and a WHERE when tags are given, followed by
      the joined clauses. */
  lemma WhereClauseShape(query: Option<string>, os: Option<string>, projectType: Option<string>,
                         category: Option<string>, hasTags: bool)
    ensures var w := WhereClause(FilterClauses(query, os, projectType, category), hasTags);
      && (w == "" <==> !(Truthy(query) || Truthy(os) || Truthy(projectType) || Truthy(category)))
      && (w != "" ==> var prefix := if hasTags then WithWherePrefix else WherePrefix;
                      && |prefix| <= |w| && w[..|prefix|] == prefix
                      && w[|prefix|..] == Join(Conjunction, FilterClauses(query, os, projectType, category)))
  {
    FilterClausesSupplied(query, os, projectType, category);
  }

  /** The store: runs a query with its parameters and returns the matching records
      in the order it produced them. */
  type Store = (string, map<string, ParamValue>) -> seq<CommandRecord>

  /** search_commands: build the query, hand it to the store, then apply the fuzzy
      stage to what the store returned. */
  method SearchCommands(run: Store, ratio: Ratio, query: Option<string>, os: Option<string>,
                        projectType: Option<string>, category: Option<string>,
                        tags: Option<seq<string>>, limit: int, fuzzy: bool, threshold: int)
    returns (whereClause: string, cypher: string, params: map<string, ParamValue>, commands: seq<CommandRecord>)
    ensures whereClause == WhereClause(FilterClauses(query, os, projectType, category), HasTags(tags))
    ensures params == FilterParams(query, os, projectType, category, tags, limit)
    ensures cypher == CypherText(if HasTags(tags) then TagMatch else "", whereClause)
    ensures !(fuzzy && Truthy(query) && run(cypher, params) != []) ==> commands == run(cypher, params)
    ensures fuzzy && Truthy(query) && run(cypher, params) != [] ==>
      commands == Ranked(ratio, query.value, threshold, limit, run(cypher, params))
    ensures multiset(commands) <= multiset(run(cypher, params))
  {
    var clauses, tagMatch;
    clauses, params, tagMatch, whereClause := BuildQuery(query, os, projectType, category, tags, limit);
    cypher := CypherText(tagMatch, whereClause);
    var candidates := run(cypher, params);
    commands := RankCandidates(ratio, candidates, query, limit, fuzzy, threshold);
    if fuzzy && Truthy(query) && candidates != [] {
      RankedFromCandidates(ratio, query.value, threshold, limit, candidates);
    }
  }
}
