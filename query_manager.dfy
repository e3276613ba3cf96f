/** The query ledger `QueryManager` (common/query_manager.go): a list of
    recorded, normalised queries and a recording switch. */
module Ledger {

  import opened GoStrings
  import opened BasicNormalize

  /** What the SQL parser makes of a comment-free query: a failure (of the
      parse or of reprinting a statement), no statement at all, or the
      statements reprinted. */
  datatype ParseOutcome = Failed | NoStatements | Restored(text: string)

  /** The SQL parser library, which is not part of this model: its comment
      stripping and its parse-and-reprint, as two total functions. */
  datatype SqlParser = SqlParser(trimComment: string -> string, parse: string -> ParseOutcome)

  /** `normalize`: the empty query stays empty; comments are stripped and a
      blank remainder gives the empty string; otherwise the reprinted
      statements, the remainder itself when there is no statement, or the
      basic normalisation when parsing fails. */
  function Normalize(p: SqlParser, query: string): (r: string)
    ensures query == "" || IsBlank(p.trimComment(query)) ==> r == ""
  {
    if query == "" then query
    else
      var q := p.trimComment(query);
      if TrimSpace(q) == "" then ""
      else
        match p.parse(q)
        case Failed => BasicNormalized(q)
        case NoStatements => q
        case Restored(text) => text
  }

  /** When the parser fails on a query that is not blank after comment
      stripping, the recorded text has the shape of the basic
      normalisation, and is not empty. */
  lemma FallbackShape(p: SqlParser, query: string)
    requires query != "" && !IsBlank(p.trimComment(query))
    requires p.parse(p.trimComment(query)).Failed?
    ensures Normalize(p, query) != "" && Trimmed(Normalize(p, query))
    ensures !Contains(Normalize(p, query), "  ")
    ensures '\n' !in Normalize(p, query) && '\t' !in Normalize(p, query)
  {
    BasicNormalizedShape(p.trimComment(query));
  }

  class QueryManager {
    /** The recorded queries, in order. */
    var queries: seq<string>
    /** Whether `AddQuery` records. */
    var enabled: bool
    /** The golden file's name. */
    const goldenFile: string
    /** The SQL parser `normalize` uses. */
    const parser: SqlParser

    /** `NewQueryManager`: enabled, with nothing recorded. */
    constructor (goldenFile: string, parser: SqlParser)
      ensures queries == [] && enabled
      ensures this.goldenFile == goldenFile && this.parser == parser
    {
      queries := [];
      enabled := true;
      this.goldenFile := goldenFile;
      this.parser := parser;
    }

    /** `AddQuery`: while enabled, a non-empty query is normalised and
        appended; otherwise nothing changes. The test for emptiness is on
        the text as given, so a query made only of a comment appends `""`. */
    method AddQuery(query: string)
      modifies this
      ensures enabled == old(enabled)
      ensures old(enabled) && query != "" ==> queries == old(queries) + [Normalize(parser, query)]
      ensures !old(enabled) || query == "" ==> queries == old(queries)
    {
      if !enabled || query == "" {
        return;
      }
      var normalizedQuery := Normalize(parser, query);
      queries := queries + [normalizedQuery];
    }

    /** `Enable`: only the switch changes. */
    method Enable()
      modifies this
      ensures enabled && queries == old(queries)
    {
      enabled := true;
    }

    /** `Disable`: only the switch changes. */
    method Disable()
      modifies this
      ensures !enabled && queries == old(queries)
    {
      enabled := false;
    }

    /** `Clear`: nothing recorded any more; the switch is kept. */
    method Clear()
      modifies this
      ensures queries == [] && enabled == old(enabled)
    {
      queries := [];
    }

    /** `GetQueries`: a copy of the recorded queries. */
    method GetQueries() returns (result: seq<string>)
      ensures result == queries
    {
      result := queries;
    }
  }

  /** Recording while disabled keeps nothing; after enabling, the next
      query is recorded normalised. */
  method DisabledThenEnabled(p: SqlParser, query: string) returns (whileDisabled: seq<string>, afterEnable: seq<string>)
    requires query != ""
    ensures whileDisabled == [] && afterEnable == [Normalize(p, query)]
  {
    var qm := new QueryManager("", p);
    qm.Disable();
    qm.AddQuery(query);
    whileDisabled := qm.GetQueries();
    qm.Enable();
    qm.AddQuery(query);
    afterEnable := qm.GetQueries();
  }

  /** Earlier entries stay as they were: a sequence of recordings only
      appends, in order. */
  method RecordTwo(p: SqlParser, first: string, second: string) returns (recorded: seq<string>)
    requires first != "" && second != ""
    ensures recorded == [Normalize(p, first), Normalize(p, second)]
  {
    var qm := new QueryManager("", p);
    qm.AddQuery(first);
    qm.AddQuery(second);
    recorded := qm.GetQueries();
  }

  /** A query that is only a comment is recorded as the empty string. */
  method CommentOnlyRecorded(p: SqlParser, query: string) returns (recorded: seq<string>)
    requires query != "" && IsBlank(p.trimComment(query))
    ensures recorded == [""]
  {
    var qm := new QueryManager("", p);
    qm.AddQuery(query);
    recorded := qm.GetQueries();
  }

  /** `Clear` empties the ledger without switching recording off. */
  method ClearKeepsRecording(p: SqlParser, first: string, second: string) returns (recorded: seq<string>)
    requires first != "" && second != ""
    ensures recorded == [Normalize(p, second)]
  {
    var qm := new QueryManager("", p);
    qm.AddQuery(first);
    qm.Clear();
    qm.AddQuery(second);
    recorded := qm.GetQueries();
  }
}
