# Pending authentication codes, modelled in Dafny

The game server gives each joining player a short authentication code. The
player redeems it through a chat bot, which binds the player's identity. The
codes waiting to be redeemed live in one database table, `AuthTable`, with two
columns, `auth_code` and `player_id`. Each column is declared unique and not
null. So every code belongs to one player, and a player has at most one
pending code.

This project models that table and its operations:

- `strings.dfy` (module `Strings`): Go's `strings.Split` with a one-character
  separator, and `strings.Join`. They are proved inverse to each other in both
  directions.
- `authcodes.dfy` (module `AuthCodes`):
  - the row type `AuthCode` and the two unique constraints (`Unique`, `CanInsert`);
  - the row-level queries behind the table (`Find` on either column, and `Remove`);
  - the code derivation `DeriveCode`, which is `strings.Split(uuid, "-")[0]`;
  - the class `AuthTable`. Its `records` field holds the rows, and `Valid()` is
    the two unique constraints. Its methods `NewAuthCode`, `Authorize` and
    `RemoveCode` change the table in place. `GetAllAuthCodes`, `GetAuthCode`
    and `GetPlayerID` are read-only functions. `Create` is the store's insert
    under the unique constraints.

A player's state is: no code, then pending, then (after redemption or
removal) no code again. `Lifecycle` walks that cycle using only the methods'
contracts. It shows that two issuances give the same code, that redemption
returns the player, that a second redemption fails, and that the table ends as
it began.

"Absent" is the empty string, as in the source. `GetAuthCode` and
`GetPlayerID` return `""` on a miss. `Authorize` succeeds only when the bound
player is non-empty. `NewAuthCode` treats an empty pending code as no code.

On a unique-constraint conflict `NewAuthCode` returns `""` and the error
(internal/common/db/authcodes.go:64-65); it does not re-read the code that is
already stored. The model does the same.

## Model

| member | source | states |
|---|---|---|
| `Strings.Split` | internal/common/db/authcodes.go:58 | There is at least one piece. No piece contains the separator. The first piece is a prefix of the input that ends at the first separator or at the end. |
| `Strings.JoinSplit` | internal/common/db/authcodes.go:58 | Joining the pieces of `Split` with the separator gives back the input. |
| `Strings.SplitPrefix` | internal/common/db/authcodes.go:58 | A separator-free prefix goes onto the front of the first piece of the rest. |
| `Strings.SplitJoin` | internal/common/db/authcodes.go:58 | Splitting separator-free pieces joined by the separator gives back those pieces. |
| `AuthCodes.Find` | internal/common/db/authcodes.go:78-80 | Returns a row of the table whose given column holds the value. Returns nothing exactly when no row holds it. This covers both `player_id = ?` here and `auth_code = ?` at lines 109-111. |
| `AuthCodes.Remove` | internal/common/db/authcodes.go:119-121 | A row survives the delete exactly when it was in the table and its code differs from the deleted one. The table never grows. |
| `AuthCodes.RemoveAbsent` | internal/common/db/authcodes.go:118-125 | Deleting a code that no row holds leaves the table unchanged. |
| `AuthCodes.RemoveIdempotent` | internal/common/db/authcodes.go:118-125 | Deleting a code twice gives the same table as deleting it once. |
| `AuthCodes.RemovePreservesUnique` | internal/common/db/authcodes.go:20-22 | A delete keeps codes unique and players unique. |
| `AuthCodes.RemoveDeletesAtMostOne` | internal/common/db/authcodes.go:119-122 | Under the unique constraints, a delete removes exactly one row when the code is pending and none otherwise. |
| `AuthCodes.RemoveInserted` | internal/common/db/authcodes.go:94 | Inserting an admissible row and then deleting its code restores the table exactly. |
| `AuthCodes.DeriveCode` | internal/common/db/authcodes.go:57-58 | The code is a prefix of the generated string and contains no `-`. The code is followed by `-` or by the end of the string. |
| `AuthCodes.DeriveCodeUnique` | internal/common/db/authcodes.go:58 | Any string with those three properties is the derived code, so the contract of `DeriveCode` determines it. |
| `AuthCodes.UuidCode` | internal/common/db/authcodes.go:57-58 | For a canonical 8-4-4-4-12 UUID string, the code is the first group: eight hexadecimal digits. |
| `AuthCodes.AuthTable.constructor` | internal/common/db/authcodes.go:18-23 | A table holding rows that satisfy both unique constraints is valid and holds exactly those rows. |
| `AuthCodes.AuthTable.GetAllAuthCodes` | internal/common/db/authcodes.go:40-45 | Returns the table's rows: the same rows, as many of them, with codes unique and players unique. |
| `AuthCodes.AuthTable.GetAuthCode` | internal/common/db/authcodes.go:73-83 | Returns the code of the player's row. Returns `""` when no row holds the player. |
| `AuthCodes.AuthTable.GetPlayerID` | internal/common/db/authcodes.go:104-114 | Returns the player of the code's row. Returns `""` when no row holds the code. |
| `AuthCodes.AuthTable.Create` | internal/common/db/authcodes.go:59-62 | The insert succeeds exactly when no row shares the new row's code or player. On success exactly that row is appended. On failure the table is unchanged. Validity is kept. |
| `AuthCodes.AuthTable.NewAuthCode` | internal/common/db/authcodes.go:49-69 | A player with a non-empty pending code gets it back, with no error and no change. Otherwise the derived code is inserted. On success exactly that row is added and the code is returned. On a unique conflict the result is `""` plus the error and the table is unchanged. After success, looking up the player gives the code and looking up the code gives the player. |
| `AuthCodes.AuthTable.Authorize` | internal/common/db/authcodes.go:87-101 | Success holds exactly when the returned player is non-empty. In that case the code was bound to that player and its row is deleted. Afterwards neither the code nor the player has a row. Otherwise the result is `("", false)`, the code had no non-empty player, and the table is unchanged. |
| `AuthCodes.AuthTable.RemoveCode` | internal/common/db/authcodes.go:118-125 | The table afterwards is the old table with the code's row deleted. No row holds the code any more. Validity is kept. |
| `AuthCodes.Lifecycle` | internal/common/db/authcodes.go:49-101 | For a player with no pending code and an admissible derived code: both issuances return the derived code, redemption returns the player, a second redemption returns `("", false)`, and the table ends as it began. |

## Left out

- Table bootstrap: `GetAuthTable`/`AutoMigrate` (authcodes.go:30-37) and `TableName`/`schema` (authcodes.go:25-27) are not modelled. The constructor stands for a table that already exists and holds rows allowed by the constraints.
- UUID generation: `uuid.New()` (authcodes.go:57) is a random source. `NewAuthCode` takes the generated string as a parameter instead. `UuidCode` covers the canonical UUID text form.
- Concurrency: the deletion that `Authorize` starts in a goroutine (authcodes.go:94) happens synchronously inside `Authorize` here. The double-redemption race and concurrent issuance are not modelled.
- Error results: connectivity and transport failures are not modelled, and the model drops the error results of `GetAllAuthCodes`, `GetAuthCode`, `GetPlayerID` and `RemoveCode`. That includes the not-found error that a lookup which matches no row may set; the model keeps only the `""` such a miss returns. The errors the source discards (authcodes.go:51, 88) are therefore not represented.
- `DbError` does not say which column's constraint rejected an insert. The source only passes the error on, so the model does not either.
- gorm query details: a lookup returns the one matching row. The unique constraints make "first match" and "last match" the same row, so the model does not say which of several matches gorm would pick.
- `AuthCodes.AuthTable.GetAllAuthCodes`: the SQL query has no ORDER BY. The contract therefore promises the same set of rows and the same count, not a particular order.
