# Chirpy chirp validator and profanity censor, in Dafny

Chirpy is a small HTTP backend for short text posts ("chirps"). Before a chirp
body is answered back (`handleValidation`) or stored (`handleCreateChirp`),
two rules apply to it:

- a body longer than 140 bytes is rejected with status 400 and the message
  "Chirp is too long", and is never censored;
- any other body goes through `censorProfane`. That function splits the text on
  every single space byte and lower-cases each piece. A piece equal to
  `kerfuffle`, `sharbert` or `fornax` becomes `****`. Every other piece is kept
  exactly as it was. The pieces are then joined back with single spaces.

This project models those two rules and proves what they promise.

- `go_strings.dfy`, module `GoStrings`: the three operations of Go's `strings`
  package that the censor uses. Text is a sequence of bytes, as in Go, so `len`
  and splitting on `" "` are exact. `Split` keeps empty pieces. `Join` puts one
  space between neighbours. `ToLower` is given for ASCII.
- `censor.dfy`, module `Censor`: the banned words and their replacement. It holds
  the functional specification `Censored` (split, censor each piece, join) and
  the method `CensorProfane`, which runs the source's loop: it appends to a
  `result` sequence piece by piece and is proved equal to `Censored`. Around
  them are the lemmas about `Censored` and the handler `HandleValidation`.

`user_handler.go:183-189` applies the same 140-byte guard before calling
`censorProfane`. The guard and the censor are modelled once, in
`HandleValidation` and `CensorProfane`.

## Model

| member | source | states |
|---|---|---|
| `GoStrings.Split` | validation_handler.go:49 | splitting on `" "` gives one piece more than there are spaces, empty pieces included (`""` gives one empty piece); no piece holds a space; joining the pieces gives back the text |
| `GoStrings.Join` | validation_handler.go:58 | joining no pieces gives the empty string, and joining n space-free pieces puts exactly n-1 spaces into the result, one per gap; `Split`'s `Join(r) == s`, `SplitJoin` and `JoinShorter` are the further facts proved about it |
| `GoStrings.SplitJoin` | validation_handler.go:49-58 | splitting inverts joining: any non-empty list of space-free pieces, empty ones included, comes back unchanged from `Split(Join(ps))` |
| `GoStrings.ToLower` | validation_handler.go:50 | lower-casing keeps the length, leaves no upper-case ASCII letter, and changes a byte only by moving an upper-case letter to its lower-case form |
| `GoStrings.JoinShorter` | validation_handler.go:58 | joining pieces that are each no longer gives a string that is no longer, and strictly shorter exactly when some piece is strictly shorter |
| `Censor.CensorPiece` | validation_handler.go:50-55 | a replaced or kept piece is never longer than the original, and strictly shorter exactly when the piece is banned; it holds no space if the original held none; it is itself never banned |
| `Censor.CensorPieces` | validation_handler.go:48-56 | the censored pieces line up one for one with the input pieces, each censored on its own |
| `Censor.CensorProfane` | validation_handler.go:41-59 | the loop that appends `****` or the piece to `result`, then joins it, computes exactly `Censored(text)`, the specification of `censorProfane` (split on spaces, replace each banned piece by `****`, join with spaces) about which `PiecesAlign`, `UnchangedIffClean`, `Idempotent` and `NeverLonger` are proved |
| `Censor.PiecesAlign` | validation_handler.go:48-58 | splitting the output gives as many pieces as splitting the input; output piece i is `****` when input piece i is banned and is input piece i, case included, otherwise |
| `Censor.BannedIffCaseVariant` | validation_handler.go:50-52 | a piece is banned exactly when it spells `kerfuffle`, `sharbert` or `fornax` in some mix of upper and lower case (so `Kerfuffle` and `FORNAX` are banned) |
| `Censor.WholePieceOnly` | validation_handler.go:49-51 | a piece that holds a banned word, in any case, together with at least one more byte (`kerfuffle!`, `sharberts`) is not banned |
| `Censor.NoWordStartsInsideAnother` | validation_handler.go:42-46 | a sequence `l` longer than a banned word `w`, holding `w`'s first two bytes at a position `k` with room for the rest of `w`, is not itself a banned word; `WholePieceOnly` rests on it |
| `Censor.UnchangedIffClean` | validation_handler.go:49-58 | the output equals the input exactly when no piece is banned; this covers `""` and leading, trailing or repeated spaces |
| `Censor.Idempotent` | validation_handler.go:41-58 | censoring already-censored text changes nothing |
| `Censor.NeverLonger` | validation_handler.go:42-52 | the output is never longer than the input, and is strictly shorter exactly when some piece was banned |
| `Censor.CensorShortens` | validation_handler.go:48-58 | for any list of pieces, joining the censored pieces is never longer than joining the originals, and strictly shorter exactly when some piece is banned |
| `Censor.HandleValidation` | validation_handler.go:22-38 | a decoding failure answers 500 "Something went wrong"; a body over 140 bytes answers 400 "Chirp is too long"; a body of at most 140 bytes (exactly 140 included) answers 200 with its censored form, which is itself at most 140 bytes |

## Left out

- `GoStrings.ToLower`: Go's `strings.ToLower` applies the full Unicode case mapping to UTF-8 text. For example, Go lower-cases the Kelvin sign U+212A to `k`, so a piece that spells `kerfuffle` with a Kelvin sign as its first letter is censored by Go but kept by the model. The model lower-cases only the ASCII letters A-Z and leaves every other byte alone. For ASCII text the two agree.
- JSON decoding of the request and encoding of the response (`json.NewDecoder`, `RespondWithJSON`, `RespondWithError`) are not modelled. A decoding failure is an input, `None`, to `HandleValidation`. The failure of `json.Marshal` inside `RespondWithJSON` is not modelled.
- The other handlers in `user_handler.go`, `webhook_handler.go` and `api_config.go`, and the routing in `main.go`, are HTTP plumbing. They are not part of this model. That includes the database call that stores a censored chirp and the `err.Error()` message `handleCreateChirp` returns when decoding fails.
- `internal/auth` is library-backed authentication outside this model: bcrypt password hashing, HMAC-signed JWTs, random refresh tokens and authorization-header parsing.
- The database layer (users, chirps, refresh tokens) is outside this model: generated SQL query wrappers whose behaviour lives in the database.
- The `fileserverHits` atomic counter is left out. It exists only for concurrent request counting.
