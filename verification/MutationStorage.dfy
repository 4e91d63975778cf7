/** The store of source-level mutations, keyed by a Cantor hash of line and column. */
module MutationStorage {
  import opened Wrappers

  const INT_MAX := 0x7fff_ffff

  /** The largest sum of line and column that the hash handles. */
  const MAX_SUM := 46340

  /** The Cantor pairing, on unbounded integers. */
  function Cantor(line: nat, column: nat): nat {
    (line + column) * (line + column + 1) / 2 + line
  }

  /** The hash in 32-bit arithmetic: nothing if an assertion fails or an operation overflows, which
      is undefined for signed integers. */
  function LineColumnHash(line: int, column: int): Option<int> {
    if line <= 0 || column <= 0 then None
    else if line + column + 1 > INT_MAX || (line + column) * (line + column + 1) > INT_MAX then None
    else
      var half := (line + column) * (line + column + 1) / 2;
      if half + line > INT_MAX then None else Some(half + line)
  }

  lemma {:induction false} EvenProduct(n: nat)
    ensures n * (n + 1) % 2 == 0
  {
    if n > 0 {
      EvenProduct(n - 1);
      assert n * (n + 1) == (n - 1) * n + 2 * n;
    }
  }

  lemma SquareMonotone(a: nat, b: nat)
    requires a <= b
    ensures a * (a + 1) <= b * (b + 1)
  {
    assert b * (b + 1) - a * (a + 1) == (b - a) * (a + b + 1);
  }

  /** The hash is defined exactly for positive positions up to the largest sum, and is their number in the
      diagonal order of all positions. */
  lemma HashDefined(line: int, column: int)
    ensures LineColumnHash(line, column).Some? <==> line > 0 && column > 0 && line + column <= 46340
    ensures LineColumnHash(line, column).Some? ==> LineColumnHash(line, column).value == Cantor(line, column)
    ensures line >= 0 && column >= 0 ==>
      2 * Cantor(line, column) == (line + column) * (line + column + 1) + 2 * line
  {
    var sum := line + column;
    if line >= 0 && column >= 0 {
      EvenProduct(sum);
    }
    if line <= 0 || column <= 0 {
    } else if sum <= MAX_SUM {
      SquareMonotone(sum, MAX_SUM);
    } else {
      SquareMonotone(MAX_SUM + 1, sum);
    }
  }

  lemma Triangle(sum: nat)
    ensures (sum + 1) * (sum + 2) / 2 == sum * (sum + 1) / 2 + sum + 1
  {
    assert (sum + 1) * (sum + 2) == sum * (sum + 1) + 2 * (sum + 1);
  }

  lemma {:induction false} TriangleMonotone(a: nat, b: nat)
    requires a < b
    ensures a * (a + 1) / 2 + a + 1 <= b * (b + 1) / 2
    decreases b - a
  {
    Triangle(b - 1);
    if a < b - 1 {
      TriangleMonotone(a, b - 1);
    }
  }

  /** No two positions share a hash. */
  lemma CantorInjective(line: nat, column: nat, line': nat, column': nat)
    requires Cantor(line, column) == Cantor(line', column')
    ensures line == line' && column == column'
  {
    if line + column < line' + column' {
      TriangleMonotone(line + column, line' + column');
    } else if line' + column' < line + column {
      TriangleMonotone(line' + column', line + column);
    }
  }

  // ---- The store --------------------------------------------------------------------------------

  datatype ASTMutation = ASTMutation(kind: string, line: int, column: int, stmt: string)

  type Bucket = map<int, ASTMutation>
  type Storage = map<string, map<string, Bucket>>

  datatype Key = Key(file: string, kind: string, line: int, column: int)

  /** The hash is defined for the position. */
  predicate InRange(line: int, column: int) {
    line > 0 && column > 0 && line + column <= MAX_SUM
  }

  /** What a caller finds under the hash of a position. */
  function Lookup(storage: Storage, key: Key): Option<ASTMutation>
    requires InRange(key.line, key.column)
  {
    if key.file !in storage || key.kind !in storage[key.file] then None
    else
      var bucket := storage[key.file][key.kind];
      var hash := Cantor(key.line, key.column);
      if hash in bucket then Some(bucket[hash]) else None
  }

  class ASTMutationStorage {
    var storage: Storage

    constructor ()
      ensures storage == map[]
    {
      storage := map[];
    }

    /** Keeps what is stored under the hash already, and every other position as it was. */
    method SaveMutation(file: string, kind: string, stmt: string, line: int, column: int)
      requires InRange(line, column)
      modifies this
      ensures forall key: Key :: InRange(key.line, key.column) ==>
        Lookup(storage, key)
        == if key == Key(file, kind, line, column) && Lookup(old(storage), key) == None
           then Some(ASTMutation(kind, line, column, stmt))
           else Lookup(old(storage), key)
    {
      HashDefined(line, column);
      var hash := LineColumnHash(line, column).value;
      if file !in storage {
        storage := storage[file := map[]];
      }
      if kind !in storage[file] {
        storage := storage[file := storage[file][kind := map[]]];
      }
      if hash !in storage[file][kind] {
        var bucket := storage[file][kind][hash := ASTMutation(kind, line, column, stmt)];
        storage := storage[file := storage[file][kind := bucket]];
      }
      forall key: Key | InRange(key.line, key.column) && key != Key(file, kind, line, column)
        ensures Lookup(storage, key) == Lookup(old(storage), key)
      {
        if Cantor(key.line, key.column) == hash {
          CantorInjective(key.line, key.column, line, column);
        }
      }
    }

    method MutationExists(file: string, kind: string, line: int, column: int) returns (exists_: bool)
      requires file in storage && kind in storage[file] && InRange(line, column)
      ensures exists_ <==> Lookup(storage, Key(file, kind, line, column)) != None
    {
      HashDefined(line, column);
      var hash := LineColumnHash(line, column).value;
      exists_ := hash in storage[file][kind];
    }

    method GetMutation(file: string, kind: string, line: int, column: int) returns (mutation: ASTMutation)
      requires file in storage && kind in storage[file] && InRange(line, column)
      requires Lookup(storage, Key(file, kind, line, column)) != None
      ensures Lookup(storage, Key(file, kind, line, column)) == Some(mutation)
    {
      HashDefined(line, column);
      var hash := LineColumnHash(line, column).value;
      mutation := storage[file][kind][hash];
    }

    /** A run of saves. */
    method SaveAll(saves: seq<Save>)
      requires forall k :: 0 <= k < |saves| ==> InRange(saves[k].key.line, saves[k].key.column)
      requires storage == map[]
      modifies this
      ensures forall key: Key :: InRange(key.line, key.column) ==> Lookup(storage, key) == FirstSaved(saves, key)
    {
      for k := 0 to |saves|
        invariant forall key: Key :: InRange(key.line, key.column) ==>
          Lookup(storage, key) == FirstSaved(saves[..k], key)
      {
        var Save(key, stmt) := saves[k];
        assert saves[..k + 1][..k] == saves[..k];
        SaveMutation(key.file, key.kind, stmt, key.line, key.column);
      }
      assert saves[..|saves|] == saves;
    }
  }

  datatype Save = Save(key: Key, stmt: string)

  /** The reference: the first mutation saved for exactly this file, kind, line and column. */
  function FirstSaved(saves: seq<Save>, key: Key): Option<ASTMutation> {
    if saves == [] then None
    else
      var before := FirstSaved(saves[..|saves| - 1], key);
      var last := saves[|saves| - 1];
      if before == None && last.key == key then Some(ASTMutation(key.kind, key.line, key.column, last.stmt)) else before
  }

  /** The reference finds a mutation exactly for the positions that were saved, and it is the first
      one saved there. */
  lemma {:induction false} FirstSavedIsFirst(saves: seq<Save>, key: Key)
    ensures FirstSaved(saves, key) == None <==> forall k :: 0 <= k < |saves| ==> saves[k].key != key
    ensures FirstSaved(saves, key) != None ==>
      exists k :: 0 <= k < |saves| && saves[k].key == key && (forall j :: 0 <= j < k ==> saves[j].key != key)
                  && FirstSaved(saves, key) == Some(ASTMutation(key.kind, key.line, key.column, saves[k].stmt))
    decreases |saves|
  {
    if saves != [] {
      var n := |saves| - 1;
      FirstSavedIsFirst(saves[..n], key);
      if FirstSaved(saves[..n], key) != None {
        var k :| 0 <= k < n && saves[..n][k].key == key
                 && (forall j :: 0 <= j < k ==> saves[..n][j].key != key)
                 && FirstSaved(saves[..n], key)
                 == Some(ASTMutation(key.kind, key.line, key.column, saves[..n][k].stmt));
        assert saves[k].key == key;
        assert forall j :: 0 <= j < k ==> saves[j] == saves[..n][j];
      } else {
        assert forall j :: 0 <= j < n ==> saves[j] == saves[..n][j];
      }
    }
  }
}
