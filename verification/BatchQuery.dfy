/**
  The text of the batch insert statement and its argument list are built side by side. PostgreSQL's side
  of the deal is a reader of the VALUES list that looks every placeholder up in the arguments.
 */
module BatchQuery {
  import opened Wrappers
  import opened Decimal
  import opened Sequences

  datatype Row = Row(collectionId: string, vectorStr: string, metadataJson: string, content: string)

  function Header(): string {
    "INSERT INTO documents (" + "collection_id" + ", " + "vector" + ", " + "metadata" + ", " + "content" + ") VALUES"
  }

  function Returning(): (s: string)
    ensures s != [] && s[0] == ' '
  {
    " " + "RETURNING id, collection_id, metadata, content, created_at, updated_at"
  }

  /** The placeholder group of row `i` of `n`, with the comma that leads to the next one. */
  function GroupText(i: nat, n: nat): string {
    "($" + Digits(i * 4 + 1) + ",$" + Digits(i * 4 + 2) + "::vector,$" + Digits(i * 4 + 3) + ",$" + Digits(i * 4 + 4) + ")"
    + (if i + 1 < n then "," else "")
  }

  function GroupsText(i: nat, n: nat): string
    decreases n - i
  {
    if i >= n then "" else GroupText(i, n) + GroupsText(i + 1, n)
  }

  function QueryText(n: nat): string {
    Header() + GroupsText(0, n) + Returning()
  }

  function RowArgs(r: Row): seq<string> {
    [r.collectionId, r.vectorStr, r.metadataJson, r.content]
  }

  function Args(rows: seq<Row>): (args: seq<string>)
    ensures |args| == 4 * |rows|
  {
    if rows == [] then [] else Args(rows[..|rows| - 1]) + RowArgs(rows[|rows| - 1])
  }

  /** What the write calls for one row leave in the builder. */
  function Written(before: string, i: nat, n: nat): string {
    before + "($" + Digits(i * 4 + 1) + ",$" + Digits(i * 4 + 2) + "::vector,$" + Digits(i * 4 + 3)
    + ",$" + Digits(i * 4 + 4) + ")" + (if i + 1 < n then "," else "")
  }

  lemma WrittenIsGroupText(before: string, i: nat, n: nat)
    ensures Written(before, i, n) == before + GroupText(i, n)
  {
    hide Digits;
    var a, b, c, d := Digits(i * 4 + 1), Digits(i * 4 + 2), Digits(i * 4 + 3), Digits(i * 4 + 4);
    var g := "($";
    Assoc(before, g, a);
    g := g + a;
    Assoc(before, g, ",$");
    g := g + ",$";
    Assoc(before, g, b);
    g := g + b;
    Assoc(before, g, "::vector,$");
    g := g + "::vector,$";
    Assoc(before, g, c);
    g := g + c;
    Assoc(before, g, ",$");
    g := g + ",$";
    Assoc(before, g, d);
    g := g + d;
    Assoc(before, g, ")");
    g := g + ")";
    Assoc(before, g, if i + 1 < n then "," else "");
  }

  lemma GroupsStep(before: string, i: nat, n: nat)
    requires i < n
    ensures before + GroupsText(i, n) == Written(before, i, n) + GroupsText(i + 1, n)
  {
    hide Written, GroupText;
    WrittenIsGroupText(before, i, n);
    Assoc(before, GroupText(i, n), GroupsText(i + 1, n));
  }

  method BuildInsert(rows: seq<Row>) returns (query: string, contents: seq<string>)
    ensures query == QueryText(|rows|) && contents == Args(rows)
  {
    hide Digits, Header, Returning;
    var n := |rows|;
    query := Header();
    contents := [];
    for i := 0 to n
      invariant Header() + GroupsText(0, n) == query + GroupsText(i, n)
      invariant contents == Args(rows[..i])
    {
      GroupsStep(query, i, n);
      ghost var written := Written(query, i, n);
      var v, start := rows[i], i * 4 + 1;
      query := query + "($";
      query := query + Digits(start);
      query := query + ",$";
      query := query + Digits(start + 1);
      query := query + "::vector,$";
      query := query + Digits(start + 2);
      query := query + ",$";
      query := query + Digits(start + 3);
      query := query + ")";
      if i < n - 1 {
        query := query + ",";
      }
      assert query == written;
      contents := contents + [v.collectionId, v.vectorStr, v.metadataJson, v.content];
      assert rows[..i + 1][..i] == rows[..i];
    }
    assert rows[..n] == rows && GroupsText(n, n) == "";
    query := query + Returning();
  }

  // ---------------------------------------------------------------- the reader

  datatype Column = CollectionId | Vector | Metadata | Content

  /** The numbers of the four placeholders of one group; the second has the cast to `vector`. */
  datatype Group = Group(first: nat, second: nat, third: nat, fourth: nat) {
    function At(i: nat): nat
      requires i < 4
    {
      if i == 0 then first else if i == 1 then second else if i == 2 then third else fourth
    }
  }

  datatype Statement = Statement(columns: seq<Column>, groups: seq<Group>)

  function Expect(s: string, literal: string): Option<string> {
    if literal <= s then Some(s[|literal|..]) else None
  }

  /** A column of the table by its name. */
  function ReadColumn(s: string): (r: Option<(Column, string)>)
    ensures r.Some? ==> |r.value.1| < |s|
  {
    if "collection_id" <= s then Some((CollectionId, s[|"collection_id"|..]))
    else if "vector" <= s then Some((Vector, s[|"vector"|..]))
    else if "metadata" <= s then Some((Metadata, s[|"metadata"|..]))
    else if "content" <= s then Some((Content, s[|"content"|..]))
    else None
  }

  /** Column names with commas between them, up to the text that closes the list. */
  function ReadColumns(s: string): Option<(seq<Column>, string)>
    decreases |s|
  {
    match ReadColumn(s)
    case None => None
    case Some((c, rest)) =>
      if ", " <= rest then
        match ReadColumns(rest[2..])
        case None => None
        case Some((cs, end)) => Some(([c] + cs, end))
      else
        match Expect(rest, ") VALUES")
        case None => None
        case Some(end) => Some(([c], end))
  }

  function ReadPlaceholder(s: string, before: string): Option<(nat, string)> {
    match Expect(s, before)
    case None => None
    case Some(rest) => ReadNat(rest)
  }

  function ReadGroup(s: string): Option<(Group, string)> {
    match ReadPlaceholder(s, "($")
    case None => None
    case Some((a, s1)) =>
      match ReadPlaceholder(s1, ",$")
      case None => None
      case Some((b, s2)) =>
        match ReadPlaceholder(s2, "::vector,$")
        case None => None
        case Some((c, s3)) =>
          match ReadPlaceholder(s3, ",$")
          case None => None
          case Some((d, s4)) =>
            match Expect(s4, ")")
            case None => None
            case Some(s5) => Some((Group(a, b, c, d), s5))
  }

  /** One group, then another after each comma. */
  function ReadGroups(s: string): Option<(seq<Group>, string)>
    decreases |s|
  {
    match ReadGroup(s)
    case None => None
    case Some((g, rest)) =>
      if rest != [] && rest[0] == ',' && |rest| <= |s| then
        match ReadGroups(rest[1..])
        case None => None
        case Some((gs, end)) => Some(([g] + gs, end))
      else Some(([g], rest))
  }

  function ParseInsert(q: string): Option<Statement> {
    match Expect(q, "INSERT INTO documents (")
    case None => None
    case Some(s) =>
      match ReadColumns(s)
      case None => None
      case Some((columns, values)) =>
        match ReadGroups(values)
        case None => None
        case Some((gs, end)) => if end == Returning() then Some(Statement(columns, gs)) else None
  }

  /** What a group gives a column: the argument its placeholder names, counted from one, at the column's place in the
      list. */
  function ValueOf(columns: seq<Column>, g: Group, args: seq<string>, c: Column): Option<string> {
    if c !in columns then None
    else
      var i := PlaceOf(columns, c);
      if i < 4 && 1 <= g.At(i) <= |args| then Some(args[g.At(i) - 1]) else None
  }

  function PlaceOf(columns: seq<Column>, c: Column): (i: nat)
    requires c in columns
    ensures i < |columns| && columns[i] == c
  {
    if columns[0] == c then 0 else 1 + PlaceOf(columns[1..], c)
  }

  /** The row a group stands for; the cast is for the vector column. */
  function Bind(columns: seq<Column>, g: Group, args: seq<string>): Option<Row> {
    match (ValueOf(columns, g, args, CollectionId), ValueOf(columns, g, args, Vector),
           ValueOf(columns, g, args, Metadata), ValueOf(columns, g, args, Content))
    case (Some(id), Some(v), Some(m), Some(content)) =>
      if |columns| == 4 && columns[1] == Vector then Some(Row(id, v, m, content)) else None
    case _ => None
  }

  function Placeholders(gs: seq<Group>): seq<nat> {
    if gs == [] then []
    else [gs[0].first, gs[0].second, gs[0].third, gs[0].fourth] + Placeholders(gs[1..])
  }

  // ---------------------------------------------------------------- the statement means the rows

  function NumberedGroup(i: nat): Group {
    Group(i * 4 + 1, i * 4 + 2, i * 4 + 3, i * 4 + 4)
  }

  function NumberedGroups(i: nat, n: nat): (gs: seq<Group>)
    requires i <= n
    ensures |gs| == n - i
    ensures forall k :: 0 <= k < n - i ==> gs[k] == NumberedGroup(i + k)
  {
    seq(n - i, k requires 0 <= k => NumberedGroup(i + k))
  }

  lemma ExpectFound(literal: string, rest: string)
    ensures Expect(literal + rest, literal) == Some(rest)
  {
    assert (literal + rest)[|literal|..] == rest;
  }

  lemma ReadPlaceholderAt(before: string, k: nat, rest: string)
    requires rest != [] && !IsDigit(rest[0])
    ensures ReadPlaceholder(before + (Digits(k) + rest), before) == Some((k, rest))
  {
    hide Digits, ReadNat, Expect;
    ExpectFound(before, Digits(k) + rest);
    ReadDigits(k, rest);
  }

  lemma ReadGroupAt(i: nat, n: nat, rest: string)
    ensures var comma := if i + 1 < n then "," else "";
            ReadGroup(GroupText(i, n) + rest) == Some((NumberedGroup(i), comma + rest))
  {
    hide Digits, ReadNat, ReadPlaceholder, Expect;
    var comma := if i + 1 < n then "," else "";
    var s4 := ")" + (comma + rest);
    var s3 := ",$" + (Digits(i * 4 + 4) + s4);
    var s2 := "::vector,$" + (Digits(i * 4 + 3) + s3);
    var s1 := ",$" + (Digits(i * 4 + 2) + s2);
    ReadPlaceholderAt("($", i * 4 + 1, s1);
    ReadPlaceholderAt(",$", i * 4 + 2, s2);
    ReadPlaceholderAt("::vector,$", i * 4 + 3, s3);
    ReadPlaceholderAt(",$", i * 4 + 4, s4);
    ExpectFound(")", comma + rest);
    GroupTextNested(i, n, rest);
  }

  lemma GroupTextNested(i: nat, n: nat, rest: string)
    ensures GroupText(i, n) + rest ==
              "($" + (Digits(i * 4 + 1) + (",$" + (Digits(i * 4 + 2) + ("::vector,$" + (Digits(i * 4 + 3)
              + (",$" + (Digits(i * 4 + 4) + (")" + ((if i + 1 < n then "," else "") + rest)))))))))
  {
    hide Digits;
  }

  lemma {:induction false} ReadGroupsFrom(i: nat, n: nat)
    requires i < n
    ensures ReadGroups(GroupsText(i, n) + Returning()) == Some((NumberedGroups(i, n), Returning()))
    decreases n - i
  {
    hide GroupText, ReadGroup, Returning;
    var tail := GroupsText(i + 1, n) + Returning();
    Assoc(GroupText(i, n), GroupsText(i + 1, n), Returning());
    var s := GroupText(i, n) + tail;
    ReadGroupAt(i, n, tail);
    GroupTextLength(i, n);
    if i + 1 < n {
      ReadGroupsFrom(i + 1, n);
      var rest := "," + tail;
      assert rest[1..] == tail && |rest| <= |s|;
      assert ReadGroups(s) == Some(([NumberedGroup(i)] + NumberedGroups(i + 1, n), Returning()));
      assert NumberedGroups(i, n) == [NumberedGroup(i)] + NumberedGroups(i + 1, n);
    } else {
      assert GroupsText(i + 1, n) == "" && tail == Returning() && "" + tail == tail;
      assert ReadGroups(s) == Some(([NumberedGroup(i)], Returning()));
      assert NumberedGroups(i, n) == [NumberedGroup(i)];
    }
  }

  const COLUMNS := [CollectionId, Vector, Metadata, Content]

  lemma ReadColumnAt(c: Column, rest: string)
    ensures ReadColumn((match c case CollectionId => "collection_id" case Vector => "vector"
                                case Metadata => "metadata" case Content => "content") + rest) == Some((c, rest))
  {
    match c
    case CollectionId => ExpectFound("collection_id", rest);
    case Vector =>
      assert ("vector" + rest)[0] == 'v' && "collection_id"[0] == 'c';
      ExpectFound("vector", rest);
    case Metadata =>
      assert ("metadata" + rest)[0] == 'm' && "collection_id"[0] == 'c' && "vector"[0] == 'v';
      ExpectFound("metadata", rest);
    case Content =>
      assert ("content" + rest)[2] == 'n' && "collection_id"[2] == 'l';
      assert ("content" + rest)[0] == 'c' && "vector"[0] == 'v' && "metadata"[0] == 'm';
      ExpectFound("content", rest);
  }

  lemma ReadColumnsLast(c: Column, s: string, values: string)
    requires ReadColumn(s) == Some((c, ") VALUES" + values))
    ensures ReadColumns(s) == Some(([c], values))
  {
    hide ReadColumn;
    assert ", "[0] == ',' && (") VALUES" + values)[0] == ')';
    ExpectFound(") VALUES", values);
  }

  lemma ReadColumnsMore(c: Column, s: string, rest: string)
    requires ReadColumn(s) == Some((c, ", " + rest)) && ReadColumns(rest).Some?
    ensures ReadColumns(s) == Some(([c] + ReadColumns(rest).value.0, ReadColumns(rest).value.1))
  {
    hide ReadColumn;
    ExpectFound(", ", rest);
  }

  lemma ReadColumnList(values: string)
    ensures ReadColumns("collection_id" + (", " + ("vector" + (", " + ("metadata" + (", " + ("content"
                        + (") VALUES" + values))))))))
         == Some((COLUMNS, values))
  {
    hide ReadColumn, ReadColumns;
    var s4 := "content" + (") VALUES" + values);
    var s3 := "metadata" + (", " + s4);
    var s2 := "vector" + (", " + s3);
    ReadColumnAt(Content, ") VALUES" + values);
    ReadColumnsLast(Content, s4, values);
    ReadColumnAt(Metadata, ", " + s4);
    ReadColumnsMore(Metadata, s3, s4);
    ReadColumnAt(Vector, ", " + s3);
    ReadColumnsMore(Vector, s2, s3);
    ReadColumnAt(CollectionId, ", " + s2);
    ReadColumnsMore(CollectionId, "collection_id" + (", " + s2), s2);
    assert [CollectionId] + ([Vector] + ([Metadata] + [Content])) == COLUMNS;
  }

  lemma HeaderNested(values: string)
    ensures Header() + values ==
              "INSERT INTO documents (" + ("collection_id" + (", " + ("vector" + (", " + ("metadata" + (", " + ("content"
              + (") VALUES" + values))))))))
  {
    var s := "INSERT INTO documents (" + "collection_id" + ", " + "vector" + ", " + "metadata" + ", " + "content";
    Assoc(s, ") VALUES", values);
    s := "INSERT INTO documents (" + "collection_id" + ", " + "vector" + ", " + "metadata" + ", ";
    Assoc(s, "content", ") VALUES" + values);
    s := "INSERT INTO documents (" + "collection_id" + ", " + "vector" + ", " + "metadata";
    Assoc(s, ", ", "content" + (") VALUES" + values));
  }

  lemma ParseNumbered(n: nat)
    requires n > 0
    ensures ParseInsert(QueryText(n)) == Some(Statement(COLUMNS, NumberedGroups(0, n)))
  {
    hide ReadGroups, Returning, GroupsText, ReadColumns, Expect, Header;
    ReadGroupsFrom(0, n);
    var values := GroupsText(0, n) + Returning();
    Assoc(Header(), GroupsText(0, n), Returning());
    HeaderNested(values);
    ReadColumnList(values);
    ExpectFound("INSERT INTO documents (", "collection_id" + (", " + ("vector" + (", " + ("metadata" + (", " + ("content"
                                           + (") VALUES" + values))))))));
  }

  lemma GroupTextLength(i: nat, n: nat)
    ensures |GroupText(i, n)| >= 1
  {
  }

  lemma {:induction false} PlaceholdersInOrder(i: nat, n: nat)
    requires i <= n
    ensures Placeholders(NumberedGroups(i, n)) == seq(4 * (n - i), k => 4 * i + k + 1)
    decreases n - i
  {
    if i >= n {
    } else {
      PlaceholdersInOrder(i + 1, n);
      assert NumberedGroups(i, n)[1..] == NumberedGroups(i + 1, n);
    }
  }

  lemma {:induction false} ArgsAt(rows: seq<Row>, i: nat)
    requires i < |rows|
    ensures Args(rows)[4 * i..4 * i + 4] == RowArgs(rows[i])
  {
    var n := |rows| - 1;
    if i >= n {
    } else {
      ArgsAt(rows[..n], i);
      assert Args(rows)[4 * i..4 * i + 4] == Args(rows[..n])[4 * i..4 * i + 4];
    }
  }

  /** For one row or more, the statement parses; its placeholders are `$1` to `$4n`, each once and in order; and
      read against the arguments its groups are the rows, in order. */
  lemma InsertMeansRows(rows: seq<Row>)
    requires rows != []
    ensures var n := |rows|;
            && ParseInsert(QueryText(n)) == Some(Statement(COLUMNS, NumberedGroups(0, n)))
            && Placeholders(NumberedGroups(0, n)) == seq(4 * n, k => k + 1)
            && |Args(rows)| == 4 * n
            && forall i :: 0 <= i < n ==> Bind(COLUMNS, NumberedGroups(0, n)[i], Args(rows)) == Some(rows[i])
  {
    hide ParseInsert, QueryText, Placeholders, Bind, Args;
    var n := |rows|;
    ParseNumbered(n);
    PlaceholdersInOrder(0, n);
    forall i | 0 <= i < n
      ensures Bind(COLUMNS, NumberedGroup(i), Args(rows)) == Some(rows[i])
    {
      BindNumbered(rows, i);
    }
  }

  lemma Places()
    ensures PlaceOf(COLUMNS, CollectionId) == 0 && PlaceOf(COLUMNS, Vector) == 1
    ensures PlaceOf(COLUMNS, Metadata) == 2 && PlaceOf(COLUMNS, Content) == 3
  {
  }

  lemma FourArgs(rows: seq<Row>, i: nat)
    requires i < |rows|
    ensures var args := Args(rows);
            && args[4 * i] == rows[i].collectionId && args[4 * i + 1] == rows[i].vectorStr
            && args[4 * i + 2] == rows[i].metadataJson && args[4 * i + 3] == rows[i].content
  {
    hide Args;
    ArgsAt(rows, i);
    InSlice(Args(rows), RowArgs(rows[i]), 4 * i);
  }

  lemma InSlice(args: seq<string>, four: seq<string>, k: nat)
    requires |four| == 4 && k + 4 <= |args| && args[k..k + 4] == four
    ensures four[0] == args[k] && four[1] == args[k + 1] && four[2] == args[k + 2] && four[3] == args[k + 3]
  {
  }

  lemma BindNumbered(rows: seq<Row>, i: nat)
    requires i < |rows|
    ensures Bind(COLUMNS, NumberedGroup(i), Args(rows)) == Some(rows[i])
  {
    hide Args;
    Places();
    hide PlaceOf;
    FourArgs(rows, i);
  }

  /** For no row at all the statement is not one: the service refuses empty batches before it is built. */
  lemma ParsesIffNotEmpty(n: nat)
    ensures ParseInsert(QueryText(n)).Some? <==> n > 0
  {
    hide ReadGroup, Header, Returning, ReadColumns, Expect;
    if n == 0 {
      Assoc(Header(), "", Returning());
      assert GroupsText(0, 0) == "" && QueryText(0) == Header() + Returning();
      HeaderNested(Returning());
      ReadColumnList(Returning());
      ExpectFound("INSERT INTO documents (", "collection_id" + (", " + ("vector" + (", " + ("metadata" + (", " + ("content"
                                             + (") VALUES" + Returning()))))))));
      NoGroupAt(Returning());
    } else {
      ParseNumbered(n);
    }
  }

  lemma NoGroupAt(s: string)
    requires s != [] && s[0] == ' '
    ensures ReadGroup(s) == None
  {
    assert "($"[0] == '(';
  }
}
