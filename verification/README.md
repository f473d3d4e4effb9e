# Voting page and proof formatter, modelled in Dafny

The repository is a small voting dApp. Its browser page
(`Blockchain/frontend/src/App.js`) keeps a mirror of the voting contract's
state: the candidate names, their vote counts as decimal strings, whether the
connected account has voted, whether an election is running, and the text of
the "new candidate" input box. Each command the page offers (add or remove a
candidate, vote, vote with a zero-knowledge proof, start, end or restart the
election) sends a transaction, waits for it, and then patches that mirror. A
separate script (`Blockchain/scripts/formatProof.js`) prints a proof artifact
as `0x` followed by lowercase hex.

This project models:

- the mirror as an immutable record `ViewState.View`, with the invariant
  `WellFormed`: names and counts are parallel lists of equal length and every
  count is a canonical decimal numeral;
- the page load (`ViewState.Bootstrap`) and every command (`Commands.*`) as
  pure functions. Whatever the wallet, the contract or a parsing library
  returns is a parameter: `TxResult` says whether a transaction was confirmed,
  `Reply<T>` says whether a read returned a value or threw;
- the render predicates: the Vote, Start and End buttons, and the
  case-insensitive owner check that shows the admin controls;
- the page as a whole (`Session`): which actions the rendered page offers,
  one `Step` per action, and `Run` over any sequence of actions;
- the proof-text clean-up of the proof form (trim, then remove one pair of
  surrounding double quotes) with JavaScript's exact `trim` character set;
- the hex encoding of the formatter script, with a decoder and the
  round-trip and injectivity proofs;
- `toString()` of the counts read back from the contract, with its inverse.

Module per concern: `Outcomes` (outcomes.dfy), `Text` (text.dfy), `Decimal`
(decimal.dfy), `HexFormat` (hex.dfy), `ViewState` (view.dfy), `Commands`
(commands.dfy), `Session` (session.dfy), `ProofInput` (proof_input.dfy).

A failed command leaves the view unchanged unless a read made after the
confirmation throws. A thrown transaction, a proof text that does not parse
and a public input `toBigInt` rejects all change nothing. In `vote`,
`startElection` and `endElection`, though, a read made after the
confirmation can throw, and the updates made before that read then stay:
`hasVoted` stays set with stale counts after a failed vote read-back, and the
election flag and zeroed counts stay after a failed `hasVoted` read. The
model follows the code.

## Model

| member | source | states |
|---|---|---|
| Commands.EditNewCandidate | Blockchain/frontend/src/App.js:226-229 | Typing replaces the input box text and changes nothing else; the invariant is kept. |
| Commands.ZeroVotes | Blockchain/frontend/src/App.js:137 | `votes.map(() => "0")`: one count per row, every one the numeral "0", so a start, end or restart resets the tally without losing or adding a row. |
| Commands.AppendRow | Blockchain/frontend/src/App.js:106-107 | A name and a count of "0" are appended together, so the rendered rows gain exactly one row at the end; the invariant is kept. |
| Commands.AddCandidate | Blockchain/frontend/src/App.js:99-113 | A name made only of trim characters changes nothing; a failed transaction changes nothing; a confirmed one appends the name exactly as typed, untrimmed, with count "0", and clears the input box; nothing else changes; the invariant is kept. |
| Commands.Splice | Blockchain/frontend/src/App.js:120-123 | `splice(i, 1)` removes exactly position i and shifts the rest down, keeping order; past the end it removes nothing. |
| Commands.RemoveCandidate | Blockchain/frontend/src/App.js:115-130 | A failed transaction changes nothing; a confirmed one removes position `index` from names and counts alike, both lengths drop by one, all other rows keep their relative order, and the rendered rows are the old rows with that row removed. |
| Commands.Vote | Blockchain/frontend/src/App.js:82-97 | A failed transaction changes nothing; a confirmed one sets `hasVoted`, which disables Vote; names and the number of counts stay; the count read back is stored at `index` only, as the numeral of that number; if the read-back throws, the old counts stay. |
| Commands.VoteWithProof | Blockchain/frontend/src/App.js:172-183 | A failure changes nothing; a confirmed proof vote sets `hasVoted` and nothing else. |
| Commands.SubmitProof | Blockchain/frontend/src/App.js:185-202 | A proof text or input list that cannot be parsed sends nothing and changes nothing; otherwise the proof vote runs. |
| Commands.StartElection | Blockchain/frontend/src/App.js:132-143 | A failure changes nothing; once confirmed the election is live, names stay, every count becomes "0" with the same length, and `hasVoted` takes the value read back, or stays as it was if that read throws. |
| Commands.EndElection | Blockchain/frontend/src/App.js:145-156 | As start, but the election is over and Vote is disabled. |
| Commands.RestartElection | Blockchain/frontend/src/App.js:158-170 | A failure changes nothing; once confirmed the election is live, every count is "0", `hasVoted` is cleared and Vote is enabled; names stay. |
| ViewState.WellFormed | Blockchain/frontend/src/App.js:65-66 | The page's mirror invariant: names and counts are parallel lists, one count per candidate row, and every count is a decimal numeral as `toString()` writes it. |
| ViewState.VoteEnabled | Blockchain/frontend/src/App.js:245 | A row's Vote button is live exactly when its `disabled` expression is false, that is during an election the account has not yet voted in. |
| ViewState.StartEnabled | Blockchain/frontend/src/App.js:221 | Start Election can be pressed only while no election runs. |
| ViewState.EndEnabled | Blockchain/frontend/src/App.js:222 | End Election can be pressed only while an election runs. |
| ViewState.ShowsAdminControls | Blockchain/frontend/src/App.js:218 | The admin panel and the Remove buttons exist exactly when the account and the owner are equal after lower-casing. |
| ViewState.ButtonStates | Blockchain/frontend/src/App.js:221-245 | Vote is enabled exactly when the election is live and the account has not voted; exactly one of Start and End is enabled. |
| ViewState.AdminCheck | Blockchain/frontend/src/App.js:218 | The admin controls are shown exactly when account and owner have the same length and agree character by character after ASCII lower-casing; equal strings always match. |
| ViewState.LowercaseAccountMatchesOwner | Blockchain/frontend/src/App.js:249 | An account reported in lowercase matches an owner address in any letter case. |
| ViewState.InitialShowsAdminControls | Blockchain/frontend/src/App.js:11-19 | The start state satisfies the invariant, and since account and owner both start empty, the admin check holds before anything has loaded. |
| ViewState.Entries | Blockchain/frontend/src/App.js:240-242 | The rows the candidate list renders: one (name, count) pair per candidate, pairing the name and the count at the same index, as many rows as names. |
| ViewState.Names | Blockchain/frontend/src/App.js:59-61 | The `names` array the load builds: one name per row read, in index order. |
| ViewState.Counts | Blockchain/frontend/src/App.js:58-63 | Each count read at load time is stored as a numeral that denotes that count. |
| ViewState.Bootstrap | Blockchain/frontend/src/App.js:25-80 | Loading establishes the invariant. On a wrong or unreadable network nothing is stored. Each field is stored only if its read and every earlier read succeeded, and every field whose read and earlier reads succeeded is stored as read, so a partial load keeps what it read before the throw. A read that throws leaves its own field and every later one at the `useState` default. A complete load stores the account, the owner, the flags and the rows as read. |
| ViewState.WrongChainReadsNothing | Blockchain/frontend/src/App.js:32-35 | With a chain id other than 31337, the result does not depend on any later read: the view stays at its defaults and Vote is disabled. |
| Session.Offered | Blockchain/frontend/src/App.js:218-279 | Which actions the rendered page allows: the input box, Add, Start, End, Restart and Remove only for the owner; Start only while no election runs, End only while one runs; Vote and Remove only on an existing row, Vote only while enabled; the proof form always. |
| Session.Step | Blockchain/frontend/src/App.js:218-279 | Every action keeps the invariant and the account and owner; an action the page does not offer (hidden or disabled control) changes nothing. |
| Session.Run | Blockchain/frontend/src/App.js:204-291 | After any sequence of actions the invariant holds and account and owner are unchanged. |
| Session.AlignedAfterLoadAndActions | Blockchain/frontend/src/App.js:65-66 | After any load followed by any sequence of actions, names and counts have the same length. |
| Session.FailedTransactionChangesNothing | Blockchain/frontend/src/App.js:93-96 | For every command, a transaction that throws leaves the whole view unchanged. |
| Session.StepKeepsRowsTogether | Blockchain/frontend/src/App.js:106-125 | Rows move as units: add appends (name, "0"), remove splices out one row, vote replaces only the count of its row; no other action changes the names. |
| Session.VotedStaysVoted | Blockchain/frontend/src/App.js:245 | Once `hasVoted` is set, Vote stays disabled through any actions until start or end reads the status back, or restart clears it. |
| Session.VisitorCannotChangeElection | Blockchain/frontend/src/App.js:218-251 | For a non-owner account, no sequence of actions changes the names, the election flag or the input box. |
| Session.AliceAdded | Blockchain/frontend/src/App.js:99-108 | Example: adding "Alice" yields names ["Alice"] and counts ["0"], and clears the input box. |
| Session.AliceVoted | Blockchain/frontend/src/App.js:82-92 | Example: voting for row 0 when the contract then reports 1 yields counts ["1"] and sets `hasVoted`. |
| Session.AliceRemoved | Blockchain/frontend/src/App.js:115-125 | Example: removing row 0 yields empty names and counts. |
| Text.IsSpace | Blockchain/frontend/src/App.js:100 | The WhiteSpace characters of ECMA-262 that `trim()` removes: TAB, VT, FF, ZWNBSP, SPACE, NBSP and the other Unicode space separators. |
| Text.IsLineTerminator | Blockchain/frontend/src/App.js:191 | The LineTerminator characters of ECMA-262, LF, CR, LS and PS: `trim()` removes them, and a regular expression `.` does not match them. |
| Text.TrimStart | Blockchain/frontend/src/App.js:100 | The result is a suffix of the input, only trim characters were dropped, and it does not start with one. |
| Text.TrimEnd | Blockchain/frontend/src/App.js:100 | The result is a prefix of the input, only trim characters were dropped, and it does not end with one. |
| Text.Trim | Blockchain/frontend/src/App.js:100 | The result neither starts nor ends with a trim character and is no longer than the input. |
| Text.TrimOfPadded | Blockchain/frontend/src/App.js:191 | A trimmed core between two runs of trim characters is exactly what `trim()` returns. |
| Text.TrimEmptyIff | Blockchain/frontend/src/App.js:100 | A string trims to "" exactly when all its characters are trim characters; this is the blank-name test of add. |
| Text.TrimIdempotent | Blockchain/frontend/src/App.js:191 | Trimming twice equals trimming once. |
| Text.LowerChar | Blockchain/frontend/src/App.js:218 | The result is never an uppercase ASCII letter; an uppercase letter moves to its lowercase form and every other character is kept. |
| Text.Lower | Blockchain/frontend/src/App.js:218 | `toLowerCase()` on ASCII letters: the same length, each character lower-cased on its own, with no upper-case ASCII letter left. |
| Text.LowerEqualIff | Blockchain/frontend/src/App.js:218 | Two strings lower-case to the same string exactly when they have the same length and agree position by position after lower-casing. |
| Text.LowerIdempotent | Blockchain/frontend/src/App.js:249 | Lower-casing twice equals lower-casing once. |
| Decimal.ToDecimal | Blockchain/frontend/src/App.js:91 | A count is rendered as a canonical numeral: digits only, no leading zero, and it starts with '0' exactly for zero. |
| Decimal.ValueOfToDecimal | Blockchain/frontend/src/App.js:91 | Reading a rendered count gives the count back. |
| Decimal.ToDecimalInjective | Blockchain/frontend/src/App.js:62 | Different counts render differently. |
| Decimal.ToDecimalOfValue | Blockchain/frontend/src/App.js:62 | Every canonical numeral is the rendering of the number it denotes. |
| Decimal.ZeroRendering | Blockchain/frontend/src/App.js:107 | The literal "0" the page writes is the rendering of a zero count. |
| HexFormat.HexDigitInAlphabet | Blockchain/scripts/formatProof.js:10 | Nibble n is written as the n-th character of `0123456789abcdef`, a lowercase hex digit, as `Buffer.toString("hex")` writes it. |
| HexFormat.FormatProof | Blockchain/scripts/formatProof.js:9-10 | The printed proof: "0x" followed by the hex body of the buffer. Its shape, its positions and its inverse are stated by FormatProofShape, FormatProofAt and RoundTrip. |
| HexFormat.HexBody | Blockchain/scripts/formatProof.js:10 | The hex body has two characters per byte, all lowercase hex digits. |
| HexFormat.HexBodyAt | Blockchain/scripts/formatProof.js:10 | Byte i is written at body positions 2i and 2i+1, high nibble first. |
| HexFormat.FormatProofShape | Blockchain/scripts/formatProof.js:10 | The output has length 2 + 2·(number of bytes), starts with "0x", and every later character is in 0-9a-f. |
| HexFormat.FormatProofAt | Blockchain/scripts/formatProof.js:10 | Byte i becomes the characters at positions 2+2i and 3+2i, high nibble first, in input order. |
| HexFormat.RoundTrip | Blockchain/scripts/formatProof.js:9-10 | Decoding the output recovers the bytes, and a string decodes to given bytes exactly when it is their encoding. |
| HexFormat.FormatProofInjective | Blockchain/scripts/formatProof.js:9-10 | Different buffers print different hex strings. |
| HexFormat.EmptyBuffer | Blockchain/scripts/formatProof.js:10 | The empty buffer prints as "0x". |
| HexFormat.SmallObject | Blockchain/scripts/formatProof.js:8-10 | The bytes of `{"a":1}` print as 0x7b2261223a317d. |
| ProofInput.IsQuoted | Blockchain/frontend/src/App.js:191 | The anchored expression `^"(.*)"$` matches: a quote at both ends, at least two characters, and no line terminator between the quotes. |
| ProofInput.Unquote | Blockchain/frontend/src/App.js:191 | Removing the quotes of a quoted one-line string leaves a string two shorter, with no line terminator, that re-quoted gives the input. |
| ProofInput.CleanProof | Blockchain/frontend/src/App.js:191 | The result is the trimmed text or, when the trimmed text is a one-line quoted string, what lies between its quotes; at most two characters are removed after trimming. |
| ProofInput.UnquoteQuoted | Blockchain/frontend/src/App.js:191 | Quoting a one-line text and unquoting it gives the text back. |
| ProofInput.CleanQuoted | Blockchain/frontend/src/App.js:191 | A one-line quoted text with any padding cleans to the text between the quotes. |
| ProofInput.CleanUnquoted | Blockchain/frontend/src/App.js:191 | Text that is not a one-line quoted string only loses its padding. |
| ProofInput.CleanNotIdempotent | Blockchain/frontend/src/App.js:191 | Only one pair of quotes is removed: cleaning `""x""` gives `"x"`, and cleaning again gives `x`. |
| ProofInput.CleanKeepsMultilineQuotes | Blockchain/frontend/src/App.js:191 | Quotes around a text containing a line break are kept. |
| ProofInput.PastedProofRoundTrip | Blockchain/frontend/src/App.js:191 | The formatter's output, pasted bare or in double quotes and with any padding, cleans back to itself and decodes with `DecodeHex` to the original bytes. |

## Left out

- `Blockchain/scripts/deploy.js`: contract deployment and console output; it has no local logic.
- Wallet, provider and contract calls, `tx.wait()`, `alert` and `console`: every result is a `TxResult` or `Reply` parameter. A missing `window.ethereum` stores nothing, like a throwing network read, so both are the `Threw` case of the chain parameter.
- React rendering and scheduling: state-update batching, stale closures and overlapping commands are not modelled. Each command reads the view as it was when it started. The contract and verifier handles are not part of `View`.
- The "Check if voted" button (App.js:282-289): it only alerts and changes no state.
- The proof form's own input fields (`proofIndex`, `proofA`, `proofInput`): `CleanProof` takes the proof text directly. The browser blocks a submit while a `required` field is empty; that has the same effect as a parse failure, so it is part of the `parsed` flag of `SubmitProof`.
- `parseInt`, `JSON.parse`, `BigInt`, `ethers.toBigInt`, `ethers.getBytes`: foreign library semantics. Their success or failure is the `parsed` flag of `SubmitProof` and the transaction outcome of `VoteWithProof`. `HexFormat.DecodeHex` is the inverse of the encoder. It is not a model of `ethers.getBytes`.
- In formatProof.js: the file read, `JSON.parse`, `JSON.stringify`, the UTF-8 conversion in `Buffer.from`, and the print. The model starts from the byte sequence.
- Text.Lower: lower-cases ASCII letters only, where `toLowerCase` covers all of Unicode; addresses are hex strings, so the admin check agrees on them.
- Text.IsSpace: lists the Unicode space separators of current Unicode versions explicitly; a JavaScript engine built on another Unicode version may differ.
- Commands.Vote: requires `index < |votes|` when a read-back count is stored. JavaScript would grow the array with holes for a larger index. The page only passes the index of a rendered row.
- Session.Step: requires the invariant `WellFormed`, which `Bootstrap` establishes and every step keeps.
- ViewState.Bootstrap: the account reply stands for `accounts[0]`, and an empty account list is not modelled. The signer lookup is folded into the owner read. The loop over candidates either delivers all rows or throws.
- Vote counts are unbounded naturals; the contract's 256-bit bound is not modelled.
- The smart contracts' own rules: ownership, double-vote and election-state reverts, and proof verification. They are not part of the source; their verdict is the `TxResult`.
