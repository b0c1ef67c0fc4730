/** Pending authentication codes. A player who joins the game server is given a
    short code; redeeming it elsewhere binds the player. The table holds the
    pending (code, player) pairs, and each of its two columns is unique. */
module AuthCodes {
  import Strings

  datatype Option<T> = None | Some(value: T)

  /** One row of the table: a pending code and the player it was issued to. */
  datatype AuthCode = AuthCode(authCode: string, playerID: string)

  /** The only storage failure modelled: an insert that the table's unique
      constraints reject. */
  datatype DbError = UniqueViolation

  /** The two unique constraints: no two rows share a code, no two share a player. */
  predicate Unique(records: seq<AuthCode>)
  {
    forall i, j :: 0 <= i < j < |records| ==>
      records[i].authCode != records[j].authCode && records[i].playerID != records[j].playerID
  }

  /** The unique constraints accept `record` as a new row of `records`. */
  predicate CanInsert(records: seq<AuthCode>, record: AuthCode)
  {
    forall i :: 0 <= i < |records| ==>
      records[i].authCode != record.authCode && records[i].playerID != record.playerID
  }

  /** The two columns of the table. */
  datatype Column = AuthCodeColumn | PlayerIdColumn

  /** The value a row holds in a column. */
  function Field(record: AuthCode, column: Column): string
  {
    match column
    case AuthCodeColumn => record.authCode
    case PlayerIdColumn => record.playerID
  }

  /** The row whose `column` holds `value`, if there is one (`column = ?`). */
  function Find(records: seq<AuthCode>, column: Column, value: string): (found: Option<AuthCode>)
    ensures found.Some? ==> found.value in records && Field(found.value, column) == value
    ensures found.None? <==> forall i :: 0 <= i < |records| ==> Field(records[i], column) != value
  {
    if |records| == 0 then None
    else if Field(records[0], column) == value then Some(records[0])
    else Find(records[1..], column, value)
  }

  /** The rows left after deleting every row whose code is `authCode`
      (`DELETE ... WHERE auth_code = ?`), in their original order. */
  function Remove(records: seq<AuthCode>, authCode: string): (rest: seq<AuthCode>)
    ensures |rest| <= |records|
    ensures forall r :: r in rest <==> r in records && r.authCode != authCode
  {
    if |records| == 0 then []
    else if records[0].authCode == authCode then Remove(records[1..], authCode)
    else [records[0]] + Remove(records[1..], authCode)
  }

  /** Deleting a code that is not in the table changes nothing. */
  lemma {:induction false} RemoveAbsent(records: seq<AuthCode>, authCode: string)
    requires forall i :: 0 <= i < |records| ==> records[i].authCode != authCode
    ensures Remove(records, authCode) == records
  {
    if |records| > 0 {
      RemoveAbsent(records[1..], authCode);
      assert records == [records[0]] + records[1..];
    }
  }

  /** Deleting a freshly inserted row restores the table as it was: issuing a
      code and then redeeming it leaves no trace. */
  lemma {:induction false} RemoveInserted(records: seq<AuthCode>, record: AuthCode)
    requires CanInsert(records, record)
    ensures Remove(records + [record], record.authCode) == records
  {
    if |records| == 0 {
      assert [] + [record] == [record];
      assert [record][1..] == [];
    } else {
      assert (records + [record])[1..] == records[1..] + [record];
      RemoveInserted(records[1..], record);
      assert records == [records[0]] + records[1..];
    }
  }

  /** Deleting the same code twice is the same as deleting it once. */
  lemma RemoveIdempotent(records: seq<AuthCode>, authCode: string)
    ensures Remove(Remove(records, authCode), authCode) == Remove(records, authCode)
  {
    var rest := Remove(records, authCode);
    forall i | 0 <= i < |rest| ensures rest[i].authCode != authCode {
      assert rest[i] in rest;
    }
    RemoveAbsent(rest, authCode);
  }

  /** Dropping the first row keeps both columns unique. */
  lemma UniqueTail(records: seq<AuthCode>)
    requires |records| > 0 && Unique(records)
    ensures Unique(records[1..])
  {
    var tail := records[1..];
    forall i, j | 0 <= i < j < |tail|
      ensures tail[i].authCode != tail[j].authCode && tail[i].playerID != tail[j].playerID
    {
      assert tail[i] == records[i + 1] && tail[j] == records[j + 1];
    }
  }

  /** A row that shares neither column with any row of a unique table can go
      in front of it. */
  lemma UniqueCons(record: AuthCode, rest: seq<AuthCode>)
    requires Unique(rest)
    requires forall r :: r in rest ==> r.authCode != record.authCode && r.playerID != record.playerID
    ensures Unique([record] + rest)
  {
    var all := [record] + rest;
    forall i, j | 0 <= i < j < |all|
      ensures all[i].authCode != all[j].authCode && all[i].playerID != all[j].playerID
    {
      assert all[j] == rest[j - 1] && rest[j - 1] in rest;
      if i > 0 {
        assert all[i] == rest[i - 1];
      }
    }
  }

  /** Deleting rows keeps both columns unique. */
  lemma {:induction false} RemovePreservesUnique(records: seq<AuthCode>, authCode: string)
    requires Unique(records)
    ensures Unique(Remove(records, authCode))
  {
    if |records| > 0 {
      var tail := records[1..];
      UniqueTail(records);
      RemovePreservesUnique(tail, authCode);
      var rest := Remove(tail, authCode);
      if records[0].authCode != authCode {
        forall r | r in rest
          ensures r.authCode != records[0].authCode && r.playerID != records[0].playerID
        {
          var k :| 0 <= k < |tail| && tail[k] == r;
          assert records[k + 1] == r;
        }
        UniqueCons(records[0], rest);
      }
    }
  }

  /** The store deletes at most one row: exactly one when the code is pending,
      none otherwise. */
  lemma {:induction false} RemoveDeletesAtMostOne(records: seq<AuthCode>, authCode: string)
    requires Unique(records)
    ensures Find(records, AuthCodeColumn, authCode).Some? ==> |Remove(records, authCode)| == |records| - 1
    ensures Find(records, AuthCodeColumn, authCode).None? ==> |Remove(records, authCode)| == |records|
  {
    if |records| > 0 {
      var tail := records[1..];
      UniqueTail(records);
      if records[0].authCode == authCode {
        forall i | 0 <= i < |tail| ensures tail[i].authCode != authCode {
          assert tail[i] == records[i + 1];
        }
        RemoveAbsent(tail, authCode);
      } else {
        RemoveDeletesAtMostOne(tail, authCode);
      }
    }
  }

  /** The code kept from a generated string: `strings.Split(generated, "-")[0]`.
      It is the longest prefix of `generated` without a `-`. */
  function DeriveCode(generated: string): (code: string)
    ensures code <= generated
    ensures '-' !in code
    ensures |code| == |generated| || generated[|code|] == '-'
  {
    Strings.Split(generated, '-')[0]
  }

  /** The three properties in DeriveCode's contract determine the code. */
  lemma DeriveCodeUnique(generated: string, code: string)
    requires code <= generated
    requires '-' !in code
    requires |code| == |generated| || generated[|code|] == '-'
    ensures code == DeriveCode(generated)
  {
  }

  predicate IsHexDigit(c: char)
  {
    '0' <= c <= '9' || 'a' <= c <= 'f'
  }

  /** The text form of a UUID: 32 lower-case hexadecimal digits in groups of
      8, 4, 4, 4 and 12, separated by `-`. */
  predicate IsCanonicalUuid(s: string)
  {
    && |s| == 36
    && (forall i :: 0 <= i < 36 && (i == 8 || i == 13 || i == 18 || i == 23) ==> s[i] == '-')
    && (forall i :: 0 <= i < 36 && i != 8 && i != 13 && i != 18 && i != 23 ==> IsHexDigit(s[i]))
  }

  /** A code derived from a UUID is its first group: eight hexadecimal digits. */
  lemma UuidCode(uuid: string)
    requires IsCanonicalUuid(uuid)
    ensures DeriveCode(uuid) == uuid[..8]
    ensures |DeriveCode(uuid)| == 8
    ensures forall i :: 0 <= i < 8 ==> IsHexDigit(DeriveCode(uuid)[i])
  {
    var code := uuid[..8];
    forall i | 0 <= i < 8 ensures code[i] != '-' {
      assert IsHexDigit(uuid[i]);
    }
    DeriveCodeUnique(uuid, code);
  }

  /** The table of pending authentication codes. */
  class AuthTable {
    var records: seq<AuthCode>

    /** The table's unique constraints. */
    ghost predicate Valid()
      reads this
    {
      Unique(records)
    }

    /** A table that already holds `rows`, which the constraints admit. */
    constructor (rows: seq<AuthCode>)
      requires Unique(rows)
      ensures Valid() && records == rows
    {
      records := rows;
    }

    /** Every pending code. The query has no ORDER BY, so only the set of rows
        is promised, not their order. */
    function GetAllAuthCodes(): (authCodes: seq<AuthCode>)
      reads this
      requires Valid()
      ensures Unique(authCodes)
      ensures |authCodes| == |records|
      ensures forall r :: r in authCodes <==> r in records
    {
      records
    }

    /** The pending code of `playerID`, or "" when the player has none. */
    function GetAuthCode(playerID: string): (authCode: string)
      reads this
      requires Valid()
      ensures forall i :: 0 <= i < |records| && records[i].playerID == playerID ==>
                authCode == records[i].authCode
      ensures (forall i :: 0 <= i < |records| ==> records[i].playerID != playerID) ==> authCode == ""
    {
      match Find(records, PlayerIdColumn, playerID)
      case Some(r) => r.authCode
      case None => ""
    }

    /** The player holding `authCode`, or "" when no such code is pending. */
    function GetPlayerID(authCode: string): (playerID: string)
      reads this
      requires Valid()
      ensures forall i :: 0 <= i < |records| && records[i].authCode == authCode ==>
                playerID == records[i].playerID
      ensures (forall i :: 0 <= i < |records| ==> records[i].authCode != authCode) ==> playerID == ""
    {
      match Find(records, AuthCodeColumn, authCode)
      case Some(r) => r.playerID
      case None => ""
    }

    /** Insert a row, subject to the unique constraints: a row whose code or
        player is already present is rejected and the table is unchanged. */
    method Create(record: AuthCode) returns (err: Option<DbError>)
      requires Valid()
      modifies this
      ensures Valid()
      ensures err.None? <==> CanInsert(old(records), record)
      ensures err.None? ==> records == old(records) + [record]
      ensures err.Some? ==> records == old(records)
    {
      if Find(records, AuthCodeColumn, record.authCode).None? && Find(records, PlayerIdColumn, record.playerID).None? {
        records := records + [record];
        err := None;
      } else {
        err := Some(UniqueViolation);
      }
    }

    /** Issue a code to `playerID`. A player with a pending code gets it back;
        otherwise the code derived from `generated` (which stands for a fresh
        UUID string) is inserted and returned. A rejected insert yields "" and
        the error. */
    method NewAuthCode(playerID: string, generated: string) returns (authCode: string, err: Option<DbError>)
      requires Valid()
      modifies this
      ensures Valid()
      ensures old(GetAuthCode(playerID)) != "" ==>
                authCode == old(GetAuthCode(playerID)) && err.None? && records == old(records)
      ensures old(GetAuthCode(playerID)) == "" ==>
                (err.None? <==> CanInsert(old(records), AuthCode(DeriveCode(generated), playerID)))
      ensures old(GetAuthCode(playerID)) == "" && err.None? ==>
                authCode == DeriveCode(generated) &&
                records == old(records) + [AuthCode(authCode, playerID)]
      ensures err.Some? ==> authCode == "" && records == old(records)
      ensures err.None? ==> GetAuthCode(playerID) == authCode && GetPlayerID(authCode) == playerID
    {
      var oldAuthCode := GetAuthCode(playerID);
      if |oldAuthCode| > 0 {
        ghost var k :| 0 <= k < |records| && records[k].playerID == playerID;
        return oldAuthCode, None;
      }
      authCode := DeriveCode(generated);
      err := Create(AuthCode(authCode, playerID));
      if err.Some? {
        return "", err;
      }
      assert records[|records| - 1] == AuthCode(authCode, playerID);
    }

    /** Redeem `authCode`: when it is bound to a (non-empty) player, return that
        player with `true` and delete the code; otherwise return "" and `false`
        and leave the table alone. */
    method Authorize(authCode: string) returns (playerID: string, isOK: bool)
      requires Valid()
      modifies this
      ensures Valid()
      ensures isOK <==> playerID != ""
      ensures isOK ==> AuthCode(authCode, playerID) in old(records)
      ensures isOK ==> records == Remove(old(records), authCode)
      ensures isOK ==> GetPlayerID(authCode) == "" && GetAuthCode(playerID) == ""
      ensures !isOK ==> playerID == "" && old(GetPlayerID(authCode)) == "" && records == old(records)
    {
      playerID := GetPlayerID(authCode);
      if |playerID| > 0 {
        isOK := true;
        ghost var k :| 0 <= k < |records| && records[k] == AuthCode(authCode, playerID);
        RemoveCode(authCode);
        forall i | 0 <= i < |records| ensures records[i].playerID != playerID {
          assert records[i] in records;
        }
      } else {
        isOK := false;
      }
    }

    /** Delete the row holding `authCode`, if any; every other row stays. */
    method RemoveCode(authCode: string)
      requires Valid()
      modifies this
      ensures Valid()
      ensures records == Remove(old(records), authCode)
      ensures GetPlayerID(authCode) == ""
    {
      RemovePreservesUnique(records, authCode);
      records := Remove(records, authCode);
      forall i | 0 <= i < |records| ensures records[i].authCode != authCode {
        assert records[i] in records;
      }
    }
  }

  /** One player's whole lifecycle, from the contracts alone: with no pending
      code, issuing twice yields the same fresh code; redeeming it returns the
      player; redeeming it again fails; and the table is back where it began. */
  method Lifecycle(table: AuthTable, playerID: string, generated: string)
    returns (first: string, second: string, redeemed: string, again: string, againOK: bool)
    requires table.Valid() && playerID != ""
    requires forall i :: 0 <= i < |table.records| ==> table.records[i].playerID != playerID
    requires CanInsert(table.records, AuthCode(DeriveCode(generated), playerID))
    modifies table
    ensures table.Valid() && table.records == old(table.records)
    ensures first == second == DeriveCode(generated)
    ensures redeemed == playerID
    ensures again == "" && !againOK
  {
    var err;
    first, err := table.NewAuthCode(playerID, generated);
    second, err := table.NewAuthCode(playerID, generated);
    var ok;
    redeemed, ok := table.Authorize(first);
    RemoveInserted(old(table.records), AuthCode(first, playerID));
    again, againOK := table.Authorize(first);
  }
}
