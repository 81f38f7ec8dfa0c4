/**
 * The table-name check of the JSON file store (pkg/filedb/json.go). A table
 * is a file named after it in the store's directory; the directory is
 * modelled as a map from table name to file content. Operating-system
 * errors and the (de)serializer's own work are left out.
 */
module FileDb {
  import opened Wrappers

  type Bytes = seq<bv8>

  datatype DbError =
    | UnexpectedRuneInTableName(rune: char)
    | SerializationFailed

  /** Every rune of `name` is in `allowed`. */
  ghost predicate AllAllowed(allowed: set<char>, name: string) {
    forall i :: 0 <= i < |name| ==> name[i] in allowed
  }

  /** The runes of the validator the store is built with: the 26 lower-case ASCII letters in order, then '_'. */
  const DefaultTableNameRunes: seq<char> := seq(26, i requires 0 <= i < 26 => ('a' as int + i) as char) + ['_']

  lemma DefaultRunesAreLowerCaseAndUnderscore(c: char)
    ensures c in DefaultTableNameRunes <==> 'a' <= c <= 'z' || c == '_'
  {
    if 'a' <= c <= 'z' {
      var k := c as int - 'a' as int;
      assert DefaultTableNameRunes[k] == c;
    } else if c == '_' {
      assert DefaultTableNameRunes[26] == c;
    }
  }

  /** A whitelist of runes. */
  class TableNameValidator {
    const expectedChars: set<char>

    /** Builds the whitelist from `runes` (Go's `NewTableNameValidator`). */
    constructor (runes: seq<char>)
      ensures forall c :: c in expectedChars <==> c in runes
    {
      var runeMap: set<char> := {};
      for k := 0 to |runes|
        invariant forall c :: c in runeMap <==> c in runes[..k]
      {
        assert runes[..k + 1] == runes[..k] + [runes[k]];
        runeMap := runeMap + {runes[k]};
      }
      assert runes[..|runes|] == runes;
      expectedChars := runeMap;
    }

    /** Accepts `name` exactly when all its runes are whitelisted; otherwise names the first one that is not. */
    method Validate(tableName: string) returns (r: Outcome<DbError>)
      ensures r.Pass? <==> AllAllowed(expectedChars, tableName)
      ensures r.Fail? ==>
        exists i :: && 0 <= i < |tableName|
                    && r.error == UnexpectedRuneInTableName(tableName[i])
                    && tableName[i] !in expectedChars
                    && forall j :: 0 <= j < i ==> tableName[j] in expectedChars
    {
      for i := 0 to |tableName|
        invariant forall j :: 0 <= j < i ==> tableName[j] in expectedChars
      {
        if tableName[i] !in expectedChars {
          return Fail(UnexpectedRuneInTableName(tableName[i]));
        }
      }
      return Pass;
    }
  }

  /** The store built by `InitJSON`: its validator admits exactly 'a'..'z' and '_'. */
  method NewDefaultTableNameValidator() returns (v: TableNameValidator)
    ensures fresh(v)
    ensures forall c :: c in v.expectedChars <==> 'a' <= c <= 'z' || c == '_'
  {
    v := new TableNameValidator(DefaultTableNameRunes);
    forall c ensures c in v.expectedChars <==> 'a' <= c <= 'z' || c == '_' {
      DefaultRunesAreLowerCaseAndUnderscore(c);
    }
  }

  class Json {
    const validator: TableNameValidator
    /** The directory: one file per table. */
    var tables: map<string, Bytes>

    constructor (validator: TableNameValidator, tables: map<string, Bytes>)
      ensures this.validator == validator && this.tables == tables
    {
      this.validator := validator;
      this.tables := tables;
    }

    /** Validates the name, then creates an empty table file unless one exists. */
    method CreateTableIfNotExists(tableName: string) returns (r: Outcome<DbError>)
      modifies this
      ensures !AllAllowed(validator.expectedChars, tableName) ==> r.Fail? && r.error.UnexpectedRuneInTableName? && tables == old(tables)
      ensures AllAllowed(validator.expectedChars, tableName) ==>
        r == Pass && tables == (if tableName in old(tables) then old(tables) else old(tables)[tableName := []])
    {
      var err := validator.Validate(tableName);
      if err.Fail? {
        return err;
      }
      if tableName !in tables {
        tables := tables[tableName := []];
      }
      return Pass;
    }

    /**
     * Writes `serialized` (the serializer's output, None when it fails) to
     * the table. The name is validated first: an invalid name is reported
     * before the serializer is called. `serializerCalled` says whether it was.
     */
    method Set(tableName: string, serialized: Option<Bytes>) returns (r: Outcome<DbError>, serializerCalled: bool)
      modifies this
      ensures !AllAllowed(validator.expectedChars, tableName) ==>
        r.Fail? && r.error.UnexpectedRuneInTableName? && !serializerCalled && tables == old(tables)
      ensures AllAllowed(validator.expectedChars, tableName) ==> serializerCalled
      ensures AllAllowed(validator.expectedChars, tableName) && serialized.None? ==>
        r == Fail(SerializationFailed) && tables == (if tableName in old(tables) then old(tables) else old(tables)[tableName := []])
      ensures AllAllowed(validator.expectedChars, tableName) && serialized.Some? ==>
        r == Pass && tables == old(tables)[tableName := serialized.value]
    {
      var err := CreateTableIfNotExists(tableName);
      if err.Fail? {
        return err, false;
      }
      serializerCalled := true;
      if serialized.None? {
        return Fail(SerializationFailed), serializerCalled;
      }
      tables := tables[tableName := serialized.value];
      return Pass, serializerCalled;
    }
  }

  /** The whitelist {a, b} accepts "abba" and rejects "abba_", naming '_'. */
  method ValidatorExamples() {
    var v := new TableNameValidator(['a', 'b']);
    var ok := v.Validate("abba");
    assert "abba"[0] == 'a' && "abba"[1] == 'b' && "abba"[2] == 'b' && "abba"[3] == 'a';
    assert ok == Pass;
    var bad := v.Validate("abba_");
    assert "abba_"[4] == '_';
    assert bad == Fail(UnexpectedRuneInTableName('_'));
  }

  /** A store whose validator has no runes rejects every non-empty table name, before serializing. */
  method EmptyWhitelistRejects(tableName: string, serialized: Option<Bytes>)
    requires |tableName| > 0
  {
    var v := new TableNameValidator([]);
    var db := new Json(v, map[]);
    var r, called := db.Set(tableName, serialized);
    assert tableName[0] !in v.expectedChars;
    assert r.Fail? && r.error.UnexpectedRuneInTableName? && !called && db.tables == map[];
  }
}
