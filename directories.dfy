/**
 * The client and policy directories: id-to-title tables built from full
 * database listings, and the lookups that resolve a foreign key through them.
 */
module Directories {
  import opened Wrappers
  import opened RichText

  /** A page of the clients or policies database: its id and its title properties by name. */
  datatype TitleRow = TitleRow(id: string, titles: map<string, seq<TextRun>>)

  /** The `KeyError` or `IndexError` raised while reading a row's title. */
  datatype TableError =
    | MissingTitleProperty(rowId: string, property: string)
    | EmptyTitle(rowId: string)
    | NoTextContent(rowId: string)

  /** The lookup of an id that is not in the table (the source's `UnboundLocalError`). */
  datatype LookupError = NotFound(id: string)

  /** Title property read from the clients database. */
  const ClientNameProperty: string := "Name"
  /** Title property read from the policies database. */
  const PolicyNumberProperty: string := "Policy number"

  /** `props[property]["title"][0]["text"]["content"]`, which raises unless every step exists. */
  function TitleText(row: TitleRow, property: string): (r: Result<string, TableError>)
    ensures r.Ok? <==> && property in row.titles && row.titles[property] != []
                       && row.titles[property][0].content.Some?
    ensures r.Ok? ==> r.value == row.titles[property][0].content.value
    ensures property !in row.titles ==> r == Err(MissingTitleProperty(row.id, property))
  {
    if property !in row.titles then Err(MissingTitleProperty(row.id, property))
    else
      var runs := row.titles[property];
      if runs == [] then Err(EmptyTitle(row.id))
      else if runs[0].content.None? then Err(NoTextContent(row.id))
      else Ok(runs[0].content.value)
  }

  /** The table after the loop has visited `rows` in order; a later row overwrites an earlier one. */
  function TableOf(rows: seq<TitleRow>, property: string): Result<map<string, string>, TableError>
    decreases |rows|
  {
    if rows == [] then Ok(map[])
    else
      var prev := TableOf(rows[..|rows| - 1], property);
      var row := rows[|rows| - 1];
      if prev.Err? then prev
      else match TitleText(row, property)
        case Err(e) => Err(e)
        case Ok(text) => Ok(prev.value[row.id := text])
  }

  lemma {:induction false} TableErrSticks(rows: seq<TitleRow>, property: string, n: nat)
    requires n <= |rows| && TableOf(rows[..n], property).Err?
    ensures TableOf(rows, property) == TableOf(rows[..n], property)
    decreases |rows|
  {
    if n < |rows| {
      var init := rows[..|rows| - 1];
      assert init[..n] == rows[..n];
      TableErrSticks(init, property, n);
    } else {
      assert rows[..n] == rows;
    }
  }

  /** The loop shared by `get_all_client_ids_names` and `find_all_policy_numbers_ids`. */
  method BuildTable(rows: seq<TitleRow>, property: string) returns (r: Result<map<string, string>, TableError>)
    ensures r == TableOf(rows, property)
  {
    var table: map<string, string> := map[];
    for i := 0 to |rows|
      invariant TableOf(rows[..i], property) == Ok(table)
    {
      assert rows[..i + 1][..i] == rows[..i];
      var text := TitleText(rows[i], property);
      if text.Err? {
        TableErrSticks(rows, property, i + 1);
        return Err(text.error);
      }
      table := table[rows[i].id := text.value];
    }
    assert rows[..|rows|] == rows;
    return Ok(table);
  }

  /** Some row carries this id. */
  predicate Listed(rows: seq<TitleRow>, id: string)
  {
    exists i :: 0 <= i < |rows| && rows[i].id == id
  }

  /** The key set of a built table is exactly the set of row ids. */
  lemma {:induction false} TableKeys(rows: seq<TitleRow>, property: string, id: string)
    requires TableOf(rows, property).Ok?
    ensures id in TableOf(rows, property).value <==> Listed(rows, id)
    decreases |rows|
  {
    if rows != [] {
      var init := rows[..|rows| - 1];
      TableKeys(init, property, id);
      if Listed(init, id) {
        var i :| 0 <= i < |init| && init[i].id == id;
        assert rows[i] == init[i];
      }
      if Listed(rows, id) && !Listed(init, id) {
        var i :| 0 <= i < |rows| && rows[i].id == id;
        assert i == |rows| - 1;
      }
    }
  }

  /** An id maps to the title of the last row carrying it. */
  lemma {:induction false} TableLastWins(rows: seq<TitleRow>, property: string, i: nat)
    requires TableOf(rows, property).Ok?
    requires i < |rows|
    requires forall j :: i < j < |rows| ==> rows[j].id != rows[i].id
    ensures TitleText(rows[i], property).Ok? && rows[i].id in TableOf(rows, property).value
    ensures TableOf(rows, property).value[rows[i].id] == TitleText(rows[i], property).value
    decreases |rows|
  {
    var init := rows[..|rows| - 1];
    if i < |rows| - 1 {
      assert init[i] == rows[i];
      TableLastWins(init, property, i);
    }
  }

  /** Building fails exactly when some row's title cannot be read. */
  lemma {:induction false} TableFailsIff(rows: seq<TitleRow>, property: string)
    ensures TableOf(rows, property).Err? <==>
            exists i :: 0 <= i < |rows| && TitleText(rows[i], property).Err?
    decreases |rows|
  {
    if rows != [] {
      var init := rows[..|rows| - 1];
      TableFailsIff(init, property);
      forall j | 0 <= j < |init| ensures init[j] == rows[j] { }
    }
  }

  /** `get_all_client_ids_names` with the listing of the clients database as input. */
  method GetAllClientIdsNames(clients: seq<TitleRow>) returns (r: Result<map<string, string>, TableError>)
    ensures r == TableOf(clients, ClientNameProperty)
    ensures r.Ok? ==> forall id :: id in r.value <==> Listed(clients, id)
  {
    r := BuildTable(clients, ClientNameProperty);
    if r.Ok? {
      forall id ensures id in r.value <==> Listed(clients, id) {
        TableKeys(clients, ClientNameProperty, id);
      }
    }
  }

  /** `find_all_policy_numbers_ids` with the listing of the policies database as input. */
  method FindAllPolicyNumbersIds(policies: seq<TitleRow>) returns (r: Result<map<string, string>, TableError>)
    ensures r == TableOf(policies, PolicyNumberProperty)
    ensures r.Ok? ==> forall id :: id in r.value <==> Listed(policies, id)
  {
    r := BuildTable(policies, PolicyNumberProperty);
    if r.Ok? {
      forall id ensures id in r.value <==> Listed(policies, id) {
        TableKeys(policies, PolicyNumberProperty, id);
      }
    }
  }

  /**
   * `match_client_id_name` and `match_policy_id_number`: the mapped title when the
   * id is a key, otherwise the error the unbound local variable raises.
   */
  function Match(table: map<string, string>, id: string): (r: Result<string, LookupError>)
    ensures r.Ok? <==> id in table
    ensures r.Ok? ==> r.value == table[id]
    ensures r.Err? ==> r.error == NotFound(id)
  {
    if id in table then Ok(table[id]) else Err(NotFound(id))
  }

  /**
   * The join: a foreign key resolves if and only if some listed row carries it,
   * and then to the title of the last such row.
   */
  lemma MatchBuiltTable(rows: seq<TitleRow>, property: string, id: string)
    requires TableOf(rows, property).Ok?
    ensures Match(TableOf(rows, property).value, id).Ok? <==> Listed(rows, id)
    ensures forall i :: 0 <= i < |rows| && rows[i].id == id &&
                        (forall j :: i < j < |rows| ==> rows[j].id != id) ==>
              TitleText(rows[i], property) == Ok(Match(TableOf(rows, property).value, id).value)
  {
    TableKeys(rows, property, id);
    forall i | 0 <= i < |rows| && rows[i].id == id && (forall j :: i < j < |rows| ==> rows[j].id != id)
      ensures TitleText(rows[i], property) == Ok(Match(TableOf(rows, property).value, id).value)
    {
      TableLastWins(rows, property, i);
    }
  }
}
