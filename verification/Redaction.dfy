/** Withholding secret values from a reader and taking them back on write (`packages/shared/src/index.ts`). */
module Redaction {
  import opened Text

  /** An environment row; `marked` is the response-only `valueRedacted` flag, `rest` its other fields. */
  datatype Row<T> = Row(key: string, value: string, isSecret: bool, marked: bool, rest: T)

  function RedactRow<T>(row: Row<T>): Row<T> {
    if row.isSecret then row.(value := "", marked := true) else row
  }

  function RedactSecretEnvValues<T>(rows: seq<Row<T>>): (r: seq<Row<T>>)
    ensures |r| == |rows| && forall i | 0 <= i < |rows| :: r[i] == RedactRow(rows[i])
  {
    seq(|rows|, i requires 0 <= i < |rows| => RedactRow(rows[i]))
  }

  function WithoutRedactionMarker<T>(row: Row<T>): Row<T> {
    if !row.marked then row else row.(marked := false)
  }

  /** The last row with a key, as the `Map` of the stored rows keeps it. */
  function StoredRow<T>(rows: seq<Row<T>>, key: string): Option<Row<T>> {
    if rows == [] then None
    else if rows[|rows| - 1].key == key then Some(rows[|rows| - 1])
    else StoredRow(rows[..|rows| - 1], key)
  }

  function StoredValue<T>(rows: seq<Row<T>>, key: string): Option<string> {
    var row := StoredRow(rows, key);
    if row.None? then None else Some(row.value.value)
  }

  function RestoreRow<T>(stored: seq<Row<T>>, incoming: Row<T>): Row<T> {
    if !incoming.marked then incoming
    else
      var value := StoredValue(stored, incoming.key);
      WithoutRedactionMarker(incoming).(value := if value.Some? then value.value else "")
  }

  function RestoreWithheldEnvValues<T>(stored: seq<Row<T>>, incoming: seq<Row<T>>): (r: seq<Row<T>>)
    ensures |r| == |incoming| && forall i | 0 <= i < |incoming| :: r[i] == RestoreRow(stored, incoming[i])
  {
    seq(|incoming|, i requires 0 <= i < |incoming| => RestoreRow(stored, incoming[i]))
  }

  /** A secret row is answered blank and marked, any other row as it is; nothing else of a row changes. */
  lemma RowsAreAnswered<T>(row: Row<T>)
    ensures row.isSecret ==> RedactRow(row) == Row(row.key, "", true, true, row.rest)
    ensures !row.isSecret ==> RedactRow(row) == row
    ensures WithoutRedactionMarker(row) == Row(row.key, row.value, row.isSecret, false, row.rest)
  {}

  // ---------------------------------------------------------------------------
  // The lens laws
  // ---------------------------------------------------------------------------

  ghost predicate UniqueKeys<T>(rows: seq<Row<T>>) {
    forall i, j | 0 <= i < j < |rows| :: rows[i].key != rows[j].key
  }

  /** Row `i` speaks for its key: no later row of the same key holds another value. */
  predicate LastWord<T>(rows: seq<Row<T>>, i: nat)
    requires i < |rows|
  {
    StoredValue(rows, rows[i].key) == Some(rows[i].value)
  }

  lemma {:induction false} UniqueKeysHaveLastWord<T>(rows: seq<Row<T>>, i: nat)
    requires UniqueKeys(rows) && i < |rows|
    ensures LastWord(rows, i)
  {
    if i < |rows| - 1 {
      UniqueKeysHaveLastWord(rows[..|rows| - 1], i);
    }
  }

  /** Writing back what was read is the identity exactly when no row is marked and secrets speak for their keys. */
  lemma WriteBackExactly<T>(stored: seq<Row<T>>)
    ensures RestoreWithheldEnvValues(stored, RedactSecretEnvValues(stored)) == stored <==>
            forall i | 0 <= i < |stored| :: !stored[i].marked && (stored[i].isSecret ==> LastWord(stored, i))
  {
    var back := RestoreWithheldEnvValues(stored, RedactSecretEnvValues(stored));
    forall i | 0 <= i < |stored|
      ensures back[i] == stored[i] <==> !stored[i].marked && (stored[i].isSecret ==> LastWord(stored, i))
    {
      WriteBackRow(stored, i);
    }
  }

  lemma {:induction false} KeyIsStored<T>(rows: seq<Row<T>>, i: nat)
    requires i < |rows|
    ensures StoredValue(rows, rows[i].key).Some?
  {
    if rows[|rows| - 1].key != rows[i].key {
      KeyIsStored(rows[..|rows| - 1], i);
    }
  }

  lemma WriteBackRow<T>(stored: seq<Row<T>>, i: nat)
    requires i < |stored|
    ensures RestoreRow(stored, RedactRow(stored[i])) == stored[i] <==>
            !stored[i].marked && (stored[i].isSecret ==> LastWord(stored, i))
  {
    hide StoredValue;
    KeyIsStored(stored, i);
  }

  /** On rows as they are stored -- unique keys, never a marker -- the law holds. */
  lemma WriteBackIsIdentity<T>(stored: seq<Row<T>>)
    requires UniqueKeys(stored) && forall i | 0 <= i < |stored| :: !stored[i].marked
    ensures RestoreWithheldEnvValues(stored, RedactSecretEnvValues(stored)) == stored
  {
    hide LastWord;
    forall i | 0 <= i < |stored|
      ensures LastWord(stored, i)
    {
      UniqueKeysHaveLastWord(stored, i);
    }
    WriteBackExactly(stored);
  }

  /** A write never persists the marker, keeps each echoed secret, and takes every unmarked row as sent. */
  lemma EditsKeepWithheldValues<T>(stored: seq<Row<T>>, incoming: seq<Row<T>>, i: nat, j: nat)
    requires UniqueKeys(stored) && i < |incoming| && j < |stored|
    ensures var written := RestoreWithheldEnvValues(stored, incoming);
            && !written[i].marked
            && (!incoming[i].marked ==> written[i] == incoming[i])
            && (stored[j].isSecret && incoming[i] == RedactRow(stored[j]) ==>
                  written[i] == WithoutRedactionMarker(stored[j]))
            && (incoming[i].marked && incoming[i].key == stored[j].key ==> written[i].value == stored[j].value)
            && ((forall k | 0 <= k < |stored| :: stored[k].key != incoming[i].key) && incoming[i].marked ==>
                  written[i].value == "")
  {
    UniqueKeysHaveLastWord(stored, j);
    UnknownKey(stored, incoming[i].key);
  }

  lemma {:induction false} UnknownKey<T>(rows: seq<Row<T>>, key: string)
    ensures (forall k | 0 <= k < |rows| :: rows[k].key != key) ==> StoredValue(rows, key) == None
  {
    if rows != [] {
      UnknownKey(rows[..|rows| - 1], key);
    }
  }

  /** Two rows a reader without the secrets must not be able to tell apart. */
  predicate Indistinguishable<T(==)>(a: Row<T>, b: Row<T>) {
    a == b || (a.isSecret && b.isSecret && a.key == b.key && a.rest == b.rest)
  }

  /** Redaction shows exactly what is not a secret value: equal answers, indistinguishable stores. */
  lemma RedactionShowsNoSecret<T>(a: seq<Row<T>>, b: seq<Row<T>>)
    ensures RedactSecretEnvValues(a) == RedactSecretEnvValues(b) <==>
            |a| == |b| && forall i | 0 <= i < |a| :: Indistinguishable(a[i], b[i])
  {
    var ra, rb := RedactSecretEnvValues(a), RedactSecretEnvValues(b);
    if ra == rb {
      forall i | 0 <= i < |a|
        ensures Indistinguishable(a[i], b[i])
      {
        assert ra[i] == rb[i];
      }
    }
  }

  // ---------------------------------------------------------------------------
  // What a write may show
  // ---------------------------------------------------------------------------

  /** No row that is marked but not declared secret names a stored secret. */
  predicate NamesNoSecret<T>(stored: seq<Row<T>>, incoming: seq<Row<T>>) {
    forall i | 0 <= i < |incoming| && incoming[i].marked && !incoming[i].isSecret ::
      StoredRow(stored, incoming[i].key).Some? ==> !StoredRow(stored, incoming[i].key).value.isSecret
  }

  /** The answer to a write, redacted for a caller without access to secrets. */
  function WriteAnswer<T>(stored: seq<Row<T>>, incoming: seq<Row<T>>): seq<Row<T>> {
    RedactSecretEnvValues(RestoreWithheldEnvValues(stored, incoming))
  }

  lemma {:induction false} SameStoredRow<T>(a: seq<Row<T>>, b: seq<Row<T>>, key: string)
    requires |a| == |b| && forall k | 0 <= k < |a| :: Indistinguishable(a[k], b[k])
    ensures var x, y := StoredRow(a, key), StoredRow(b, key);
            (x.None? <==> y.None?) && (x.Some? ==> Indistinguishable(x.value, y.value))
  {
    if a != [] {
      var n := |a| - 1;
      assert Indistinguishable(a[n], b[n]);
      SameStoredRow(a[..n], b[..n], key);
    }
  }

  /** Where the stored row of a key is, and that changing its value there changes the row found. */
  lemma {:induction false} StoredRowAt<T>(rows: seq<Row<T>>, key: string, x: string) returns (m: nat)
    requires StoredRow(rows, key).Some?
    ensures m < |rows| && StoredRow(rows, key) == Some(rows[m])
    ensures StoredRow(rows[m := rows[m].(value := x)], key) == Some(rows[m].(value := x))
  {
    var n := |rows| - 1;
    if rows[n].key == key {
      m := n;
    } else {
      m := StoredRowAt(rows[..n], key, x);
      assert rows[m := rows[m].(value := x)][..n] == rows[..n][m := rows[m].(value := x)];
    }
  }

  /**
   * The answer to a write depends on nothing that a redacted read withholds exactly when no marked row that is not
   * declared secret names a stored secret.
   */
  lemma WriteShowsNoSecretExactly<T>(stored: seq<Row<T>>, incoming: seq<Row<T>>)
    ensures (forall other | RedactSecretEnvValues(other) == RedactSecretEnvValues(stored) ::
               WriteAnswer(other, incoming) == WriteAnswer(stored, incoming))
            <==> NamesNoSecret(stored, incoming)
  {
    if NamesNoSecret(stored, incoming) {
      forall other | RedactSecretEnvValues(other) == RedactSecretEnvValues(stored)
        ensures WriteAnswer(other, incoming) == WriteAnswer(stored, incoming)
      {
        WriteHides(stored, other, incoming);
      }
    } else {
      var i :| 0 <= i < |incoming| && incoming[i].marked && !incoming[i].isSecret
               && StoredRow(stored, incoming[i].key).Some? && StoredRow(stored, incoming[i].key).value.isSecret;
      var secret := StoredRow(stored, incoming[i].key).value.value;
      var m := StoredRowAt(stored, incoming[i].key, secret + "x");
      var other := stored[m := stored[m].(value := secret + "x")];
      assert RedactSecretEnvValues(other) == RedactSecretEnvValues(stored);
      assert WriteAnswer(stored, incoming)[i].value == secret;
      assert WriteAnswer(other, incoming)[i].value == secret + "x";
    }
  }

  lemma WriteHides<T>(stored: seq<Row<T>>, other: seq<Row<T>>, incoming: seq<Row<T>>)
    requires NamesNoSecret(stored, incoming)
    requires RedactSecretEnvValues(other) == RedactSecretEnvValues(stored)
    ensures WriteAnswer(other, incoming) == WriteAnswer(stored, incoming)
  {
    hide StoredRow;
    RedactionShowsNoSecret(stored, other);
    forall i | 0 <= i < |incoming|
      ensures WriteAnswer(other, incoming)[i] == WriteAnswer(stored, incoming)[i]
    {
      SameStoredRow(stored, other, incoming[i].key);
    }
  }

  /** A redacted row sent back with its secrecy dropped: the next redacted answer shows the secret. */
  lemma DroppedSecrecyShowsTheSecret<T>(secret: string, rest: T)
    ensures var stored, sent := [Row("K", secret, true, false, rest)], [Row("K", "", false, true, rest)];
            && WriteAnswer(stored, sent)[0].value == secret
            && !NamesNoSecret(stored, sent)
  {
    var stored, sent := [Row("K", secret, true, false, rest)], [Row("K", "", false, true, rest)];
    assert sent[0].marked && StoredRow(stored, sent[0].key) == Some(stored[0]);
  }

  /** Two stored rows of one key: writing the redacted answer back gives both the later value. */
  lemma RepeatedKeyIsOverwritten<T>(a: string, b: string, rest: T)
    requires a != b
    ensures var stored := [Row("K", a, true, false, rest), Row("K", b, true, false, rest)];
            RestoreWithheldEnvValues(stored, RedactSecretEnvValues(stored)) == [stored[1], stored[1]]
  {}
}
