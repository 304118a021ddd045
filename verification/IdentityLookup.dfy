/** Openstack#identity_uuid: the first row of a listing whose key column has a given value. */
module IdentityLookup {
  import opened Wrappers
  import opened PrettyTable
  import opened TableLayout

  predicate Matches(obj: Hash, key: string, value: string, uuidField: string) {
    Some(uuidField) in obj && Fetch(obj, key) == Some(value)
  }

  /** The first hash from position k on that matches, or |objs|. */
  ghost function FirstMatch(objs: seq<Hash>, k: nat, key: string, value: string, uuidField: string): (m: nat)
    requires k <= |objs|
    ensures k <= m <= |objs|
    ensures m < |objs| ==> Matches(objs[m], key, value, uuidField)
    ensures forall n :: k <= n < m ==> !Matches(objs[n], key, value, uuidField)
    decreases |objs| - k
  {
    if k == |objs| || Matches(objs[k], key, value, uuidField) then k
    else FirstMatch(objs, k + 1, key, value, uuidField)
  }

  /** What the lookup finds in a parsed table. */
  ghost function Found(objs: seq<Hash>, key: string, value: string, uuidField: string): Option<string> {
    var m := FirstMatch(objs, 0, key, value, uuidField);
    if m < |objs| then Fetch(objs[m], uuidField) else None
  }

  /** `output` is what `openstack_command` did: its standard output, or the error it raised. */
  method IdentityUuid(
    output: Result<Option<string>, string>, kind: string, key: string, value: string, uuidField: string)
    returns (r: Result<Option<string>, string>)
    ensures r == match output
                 case Failure(message) =>
                   Failure("Could not lookup uuid for " + kind + ":" + key + "=>" + value + ". Error was " + message)
                 case Success(text) => Success(Found(Parsed(text), key, value, uuidField))
  {
    if output.Failure? {
      return Failure("Could not lookup uuid for " + kind + ":" + key + "=>" + value + ". Error was " + output.error);
    }
    var objs := PrettytableToArray(output.value);
    for i := 0 to |objs|
      invariant FirstMatch(objs, i, key, value, uuidField) == FirstMatch(objs, 0, key, value, uuidField)
    {
      var obj := objs[i];
      if Some(uuidField) in obj && Fetch(obj, key) == Some(value) {
        return Success(Fetch(obj, uuidField));
      }
    }
    return Success(None);
  }

  /** The first hash that has the uuid field and the value under the key decides; hashes without the
      field are passed over. */
  lemma FoundMeaning(objs: seq<Hash>, m: nat, key: string, value: string, uuidField: string)
    requires m <= |objs|
    requires forall k :: 0 <= k < m && Some(uuidField) in objs[k] && Some(key) in objs[k] ==>
               objs[k][Some(key)] != Some(value)
    requires m < |objs| ==>
               Some(uuidField) in objs[m] && Some(key) in objs[m] && objs[m][Some(key)] == Some(value)
    ensures Found(objs, key, value, uuidField) == if m < |objs| then objs[m][Some(uuidField)] else None
  {
    var first := FirstMatch(objs, 0, key, value, uuidField);
    if first < |objs| {
      assert Some(key) in objs[first] && objs[first][Some(key)] == Some(value);
    }
    assert m < |objs| ==> Matches(objs[m], key, value, uuidField);
  }

  /** The column of a header name. */
  ghost predicate ColumnIs(headers: seq<string>, name: string, i: int) {
    0 <= i < |headers| && headers[i] == name
  }

  /** The first row from k on with this value in column i, or |rows|. */
  ghost function FirstWith(rows: seq<seq<string>>, k: nat, i: nat, value: string): (m: nat)
    requires k <= |rows| && forall n :: 0 <= n < |rows| ==> |rows[n]| > i
    ensures k <= m <= |rows|
    ensures m < |rows| ==> rows[m][i] == value
    ensures forall n :: k <= n < m ==> rows[n][i] != value
    decreases |rows| - k
  {
    if k == |rows| || rows[k][i] == value then k else FirstWith(rows, k + 1, i, value)
  }

  lemma MatchesRow(o: Hash, headers: seq<string>, row: seq<string>,
                   key: string, i: nat, value: string, uuidField: string, j: nat)
    requires |row| == |headers| && IsRow(o, headers, row)
    requires ColumnIs(headers, key, i) && ColumnIs(headers, uuidField, j)
    ensures Matches(o, key, value, uuidField) <==> row[i] == value
    ensures Fetch(o, uuidField) == Some(row[j])
  {
    assert Some(headers[i]) in o && Some(headers[j]) in o;
  }

  /** On a printed listing the lookup returns the uuid cell of the first row whose key cell equals
      the value, and nil when no row has it. */
  lemma LookupInListing(doc: seq<Line>, headers: seq<string>, rows: seq<seq<string>>,
                        key: string, i: nat, value: string, uuidField: string, j: nat)
    requires TableOf(doc, headers, rows) && headers != ["Property", "Value"]
    requires ColumnIs(headers, key, i) && ColumnIs(headers, uuidField, j)
    ensures var k := FirstWith(rows, 0, i, value);
      Found(Parsed(Some(Print(doc))), key, value, uuidField) == if k < |rows| then Some(rows[k][j]) else None
  {
    var objs := Parsed(Some(Print(doc)));
    RoundTrip(doc, headers, rows);
    forall k | 0 <= k < |rows|
      ensures Matches(objs[k], key, value, uuidField) <==> rows[k][i] == value
      ensures Fetch(objs[k], uuidField) == Some(rows[k][j])
    {
      MatchesRow(objs[k], headers, rows[k], key, i, value, uuidField, j);
    }
    var m, k := FirstMatch(objs, 0, key, value, uuidField), FirstWith(rows, 0, i, value);
    assert m == k;
  }

  /** Without the key column or the uuid column the lookup finds nothing. */
  lemma LookupWithoutColumn(doc: seq<Line>, headers: seq<string>, rows: seq<seq<string>>,
                            key: string, value: string, uuidField: string)
    requires TableOf(doc, headers, rows) && headers != ["Property", "Value"]
    requires key !in headers || uuidField !in headers
    ensures Found(Parsed(Some(Print(doc))), key, value, uuidField) == None
  {
    RoundTrip(doc, headers, rows);
  }

  /** On a Property/Value listing the lookup returns the value of the last row naming the uuid field,
      when the last row naming the key has the value looked for. */
  lemma LookupInProperties(doc: seq<Line>, rows: seq<seq<string>>, key: string, value: string, uuidField: string)
    requires TableOf(doc, ["Property", "Value"], rows) && Pairs(rows)
    ensures var u, k := LastNaming(rows, uuidField), LastNaming(rows, key);
      Found(Parsed(Some(Print(doc))), key, value, uuidField) ==
      if u >= 0 && k >= 0 && rows[k][1] == value then Some(rows[u][1]) else None
  {
    var objs := Parsed(Some(Print(doc)));
    PropertyValueFlattening(doc, rows);
    var u, k := LastNaming(rows, uuidField), LastNaming(rows, key);
    FoundMeaning(objs, if u >= 0 && k >= 0 && rows[k][1] == value then 0 else 1, key, value, uuidField);
  }
}
