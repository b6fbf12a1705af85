# Morse Messenger — a verified Dafny model

Morse Messenger is a single-file PHP web application. Users register, ask one
another for a chat, accept or reject those requests, and exchange messages
that are stored as Morse text (dots, dashes, `/` between words). User 1 is
privileged: it may write to anyone, and anyone may write to it, without an
accepted request.

This project models the two parts of `index.php` that hold logic:

- **The Morse codec**: the character-to-code table and its flip (`$morse_map`,
  `$rev_map`), `encode_morse` and `decode_morse`. This covers the PHP string
  primitives they rely on: `trim`, `preg_split('/\s+/')`, `implode(' ')` and
  upper-casing.
- **The chat-request lifecycle and the message gate**: the `users`,
  `requests` and `messages` tables as fields of a `Store` class. The
  handlers `register`, `send_request`, `respond_request` and `send_message`
  are its methods. The authorization rule of `send_message` is a predicate
  over the request rows. The chat view's query (the messages between two
  users) is a filter over the message rows.

Modules, one per file:

| file | module | models |
|---|---|---|
| `morse_table.dfy` | `MorseTable` | the table, the dictionary built from it, `array_flip` |
| `text.dfy` | `Text` | `trim`, `preg_split` on `\s+`, `implode(' ')`, ASCII `mb_strtoupper` |
| `morse_codec.dfy` | `MorseCodec` | `encode_morse`, `decode_morse` and their round trip |
| `requests.dfy` | `ChatRequests` | request rows and the `UPDATE` of `respond_request` |
| `access_policy.dfy` | `AccessPolicy` | the authorization check of `send_message` |
| `chat_store.dfy` | `ChatStore` | the three tables, the handlers, the chat query |

Like the PHP functions, the codec takes its table as an argument. Most codec
facts are proved for every table that meets `Reversible`:

- the table can be flipped;
- space is coded `/`;
- every other key is coded by a non-empty string of dots and dashes.

`MorseMapReversible` proves that the messenger's own table meets this.

The table follows International Morse code (ITU-R Recommendation M.1677-1,
Part I, section 1.1). It adds `!` (`-.-.--`) and `/` as the code for space.

In some places the code does less than a reader might expect. The model
follows the code:

- Request pairs are not unique. The `requests` table has no uniqueness
  constraint, so asking the same user twice files a second pending row. There
  is no "duplicate request" error, even though the failure message of
  `send_request` ("Fehler oder Anfrage schon vorhanden", index.php:92)
  suggests that a repeated request was meant to be refused.
- Status changes are not one-way. `respond_request` has no pending guard, so a
  resolved request can be answered again. `RespondLastWins` proves that the
  last answer wins. `ChatScenario` shows an accepted chat closed again by a
  later rejection.
- `send_message` has no self-send guard.
- The empty text does not round-trip: it encodes to the empty string, which
  decodes to `"#"` (`EmptyRoundTrip`). A text of spaces does round-trip,
  since space is in the table (`MorseRoundTrip`).
- Decoding blank Morse input gives `"#"` (`DecodeBlank`). A lone form feed
  gives `"##"` (`DecodeFormFeed`), because `trim` keeps a form feed while
  `\s` splits on it.

## Model

| member | source | states |
|---|---|---|
| MorseTable.Entry | index.php:31-42 | the table as a definition: the code of each of the 48 characters, the empty string for any other character; `EntryShape` and `EntryInjective` state its properties |
| MorseTable.MorseMap | index.php:31-42 | the dictionary `$morse_map` as a definition; `MorseMapShape` and `MorseMapInjective` state its properties |
| MorseTable.RevMap | index.php:43 | `$rev_map` as a definition, the flip of `MorseMap`; `Flip` and `MorseMapReversible` state its properties |
| MorseTable.EntryShape | index.php:31-42 | every key is printable ASCII and not a lower-case letter; space alone is coded `/`; every other key is coded by dots and dashes |
| MorseTable.EntryInjective | index.php:31-42 | no two characters of the table share a code |
| MorseTable.MorseMapShape | index.php:31-42 | the dictionary's keys are exactly the table's 48 characters, each mapped to its code, none lower-case, only space mapped to `/` |
| MorseTable.MorseMapInjective | index.php:31-43 | the dictionary has no repeated value, so `array_flip` loses nothing |
| MorseTable.Flip | index.php:43 | the flip maps every value back to the key it came from, and holds nothing else |
| Text.IsTrimSpace | index.php:55 | the characters `trim` removes by default: space, tab, line feed, carriage return, NUL and vertical tab (a definition) |
| Text.IsRegexSpace | index.php:55 | the characters `\s` matches: space, tab, line feed, vertical tab, form feed and carriage return (a definition) |
| Text.Trim | index.php:55 | the result has no trim character at either end, and it is empty exactly when the input is made only of trim characters; `TrimSlice` states that it is a slice of the input |
| Text.TrimSlice | index.php:55 | the result of `trim` is the input's slice between a prefix and a suffix made only of trim characters |
| Text.TrimDropsTrailing | index.php:55 | a trim character appended to the input does not change the result of `trim` |
| Text.TrimTrimmed | index.php:55 | a string with no trim character at either end is left as it is, so trimming twice is trimming once |
| Text.Split | index.php:55 | the split yields at least one piece, even for the empty input; `SplitCharacterised` ties the pieces to the input |
| Text.SplitFirst | index.php:55 | the first piece is empty exactly when the input is empty or starts with `\s` |
| Text.SplitLast | index.php:55 | the last piece is empty exactly when the input is empty or ends with `\s` |
| Text.SplitNoSpace | index.php:55 | no piece holds a `\s` character |
| Text.SplitInnerNonEmpty | index.php:55 | only the first and the last piece can be empty |
| Text.SplitImplode | index.php:52-55 | splitting a single-space join of non-empty, whitespace-free pieces gives the pieces back |
| Text.Implode | index.php:52 | `implode(' ')` as a definition: the pieces with one space between neighbours; `SplitImplode` and `EncodeSplits` state what splitting gives back |
| Text.Join | index.php:55 | the pieces with an arbitrary run between neighbours, the shape of every input of `preg_split` (a definition; `JoinSplit`, `SplitJoin`) |
| Text.LeadingSpaces | index.php:55 | the leading run of `\s` characters: it holds only `\s`, it is the part the split skips, and it is non-empty when the input starts with `\s` |
| Text.Gaps | index.php:55 | the runs at which the split cuts: one fewer than the pieces, each a non-empty run of `\s` |
| Text.JoinSplit | index.php:55 | every string is its pieces joined by the runs it was cut at |
| Text.JoinEnds | index.php:55 | a join of non-empty pieces starts with the first piece's first character and ends with the last piece's last character |
| Text.SplitJoin | index.php:55 | splitting well-formed pieces joined by any non-empty runs of `\s` gives the pieces back |
| Text.SplitCharacterised | index.php:55 | `parts` is the split of `s` if and only if the parts are well formed (at least one, no `\s`, only the first and last may be empty) and `s` is them joined by non-empty runs of `\s` |
| Text.Upper | index.php:46 | upper-casing keeps the length and upper-cases each ASCII letter in place |
| Text.UpperIdempotent | index.php:46 | upper-casing twice equals upper-casing once and leaves no lower-case ASCII letter |
| MorseCodec.MorseMapReversible | index.php:31-43 | the messenger's table can be flipped, codes space as `/` and every other key as a signal |
| MorseCodec.EncodeChar | index.php:50 | one character's token as a definition: its code, or `?` when it has none; `EncodeCharShape` and `CharRoundTrip` state its properties |
| MorseCodec.Tokens | index.php:48-51 | one token per character: its code, or `?` when the character is not in the table |
| MorseCodec.Encode | index.php:45-53 | `encode_morse` as a definition, the tokens of the upper-cased text imploded; `EncodeMorse`, `EncodeSplits` and `RoundTrip` state its properties |
| MorseCodec.EncodeMorse | index.php:45-53 | the loop of `encode_morse` computes the encoding: the tokens of the upper-cased text joined by single spaces |
| MorseCodec.DecodeToken | index.php:58-59 | one token's character as a definition: a space for `/`, the flipped table's character, or `#`; `DecodeTokenMeaning` states its properties |
| MorseCodec.DecodeTokens | index.php:57-60 | one output character per token, each the token's decoding |
| MorseCodec.Decode | index.php:54-62 | decoding never yields the empty string |
| MorseCodec.DecodeMorse | index.php:54-62 | the loop of `decode_morse` computes the decoding: `/` gives a space, a known code its character, anything else `#` |
| MorseCodec.EncodeCharShape | index.php:50 | every emitted token is non-empty and holds no whitespace of either kind |
| MorseCodec.EncodeEmpty | index.php:45-53 | the encoding is empty exactly when the text is empty |
| MorseCodec.EncodeSplits | index.php:45-55 | a non-empty text's encoding has no surrounding whitespace and splits back into exactly its per-character tokens |
| MorseCodec.DecodeAnySeparators | index.php:54-62 | the tokens of a text joined by any non-empty runs of `\s` decode exactly as the encoding does |
| MorseCodec.EncodeIgnoresCase | index.php:46 | encoding a text and its upper-cased form gives the same result |
| MorseCodec.CharRoundTrip | index.php:50-59 | a key of the table decodes back to itself; any other character comes back as `#` |
| MorseCodec.RoundTrip | index.php:45-62 | decoding a non-empty text's encoding keeps its length and gives each character upper-cased, or `#` where the upper-cased character is not in the table |
| MorseCodec.MorseRoundTrip | index.php:31-62 | for a non-empty text over the 48 table characters, decoding undoes encoding |
| MorseCodec.DecodeTokenMeaning | index.php:58-59 | a token decodes to a space exactly when it is `/`; a non-`#` result is the character coded by the token; the character coded by the token is always the result |
| MorseCodec.PlaceholderIsNoCode | index.php:39-59 | the `?` placeholder decodes to `#`, while the character `?` (coded `..--..`) survives the round trip |
| MorseCodec.EmptyTokenIsNoCode | index.php:57-59 | the empty token is no code of a reversible table, so it decodes to `#` |
| MorseCodec.FormFeedTokens | index.php:55 | a lone form feed survives `trim` and splits into two empty tokens |
| MorseCodec.EmptyRoundTrip | index.php:52-59 | the empty text encodes to the empty string, which decodes to `#` |
| MorseCodec.DecodeBlank | index.php:55-59 | an input made only of trim characters decodes to `#` |
| MorseCodec.DecodeFormFeed | index.php:55-59 | a lone form feed decodes to `##` |
| MorseCodec.SosScenario | index.php:31-62 | `SOS` encodes to `... --- ...`, which decodes to `SOS` |
| MorseCodec.SosTokens | index.php:31-51 | the tokens of `SOS` are `...`, `---`, `...` |
| MorseCodec.SosTabsReadAsSpaces | index.php:54-62 | `...`, two tabs, `---`, two spaces, `...` decodes as `... --- ...` does |
| MorseCodec.SosWithTabsScenario | index.php:54-62 | the same input followed by a line break decodes to `SOS` |
| ChatRequests.Respond | index.php:98 | the update keeps the row count, sets the new status on every row with the given id addressed to the responder, and keeps every other row |
| ChatRequests.RespondKeepsRows | index.php:98 | an answer changes no id, sender or recipient, so ids stay ascending |
| ChatRequests.RespondAtMostOne | index.php:26-98 | with ids unique, an answer changes at most one row |
| ChatRequests.RespondNoMatch | index.php:98 | an answer that matches no row (wrong id, or a request addressed to someone else) changes nothing |
| ChatRequests.RespondLastWins | index.php:97-98 | answering the same request twice is the same as answering it once with the second answer |
| AccessPolicy.HasAcceptedRequest | index.php:116-122 | the query of the regular rule as a definition: some accepted row joins the two users in either direction |
| AccessPolicy.MaySend | index.php:110-122 | the decision as a definition: user 1 on either side, or an accepted request; `IsAllowed` and the lemmas below state its properties |
| AccessPolicy.IsAllowed | index.php:106-123 | sending is allowed exactly when the sender is user 1, the recipient is user 1, or an accepted request joins the two in either direction |
| AccessPolicy.MaySendSymmetric | index.php:112-119 | the decision is the same with sender and recipient swapped |
| AccessPolicy.OnlyAcceptedCounts | index.php:118-120 | pending and rejected rows never authorize: keeping only the accepted rows changes no decision |
| AccessPolicy.AcceptedRows | index.php:118 | the rows the query's `status="accepted"` filter keeps: no more rows than the table, every one accepted |
| AccessPolicy.AcceptedRowsKeeps | index.php:118 | every accepted row is among the accepted rows |
| AccessPolicy.AcceptedRowsFrom | index.php:118 | every row kept as accepted comes from the table |
| AccessPolicy.AddPendingKeepsDecision | index.php:91-118 | filing a request (a new pending row) changes no decision |
| AccessPolicy.AcceptOpensChat | index.php:98-120 | accepting a request addressed to the responder allows both users to write to each other |
| AccessPolicy.AcceptNeverCloses | index.php:98-120 | an acceptance never takes away a permission |
| AccessPolicy.RejectNeverOpens | index.php:98-120 | a rejection never grants a permission |
| AccessPolicy.ChatScenario | index.php:89-123 | users 2 and 3 may not chat, nor after 2 files a request; they may in both directions once 3 accepts; a later rejection by 3 closes the chat again |
| ChatStore.Conversation | index.php:254-255 | the chat holds only messages between the two users, each from the table, and every such message of the table |
| ChatStore.ConversationSymmetric | index.php:254-255 | both users see the same chat |
| ChatStore.ConversationAppend | index.php:133-255 | a stored message is appended at the end of its two users' chat and of no other chat |
| ChatStore.Falsy | index.php:69 | PHP's falsy strings as a definition: the empty string and `"0"` |
| ChatStore.NameTaken | index.php:25-73 | the `UNIQUE` name column as a definition: some user already has the name, which makes the `INSERT` fail |
| ChatStore.AddUserKeepsValid | index.php:25 | a user with a free name and the next id keeps the `users` table's ids positive and ascending and its names unique |
| ChatStore.Store.constructor | index.php:24-27 | a new database has three empty tables, and both AUTOINCREMENT counters hand out id 1 first |
| ChatStore.Store.Register | index.php:66-75 | a falsy trimmed name or falsy password is refused; a taken name is refused; otherwise one user with the trimmed name and the next id is appended; requests and messages are unchanged |
| ChatStore.FirstAccountIsPrivileged | index.php:7-75 | on a new database, the first registration with a non-falsy trimmed name and password gets id 1, the privileged account; falsy credentials are refused |
| ChatStore.Store.SendRequest | index.php:87-94 | a request to oneself changes nothing; any other, repeated or not, appends one pending row with the next id; users and messages are unchanged |
| ChatStore.Store.RespondRequest | index.php:95-100 | `accept` gives accepted and any other answer rejected, set on the row with the given id addressed to the responder whatever its status; users and messages are unchanged |
| ChatStore.Store.SendMessage | index.php:101-135 | an empty trimmed body is refused first, then an unauthorized send; otherwise exactly one message (sender, recipient, trimmed body) is appended; the request and user tables never change |

## Left out

- HTML, CSS and the client-side script (`appendM`, `backspace`) are page rendering, not logic.
- Session handling, `require_login`, logout, redirects and flash messages are plumbing. The logged-in user's id is the parameter `me`, and flash messages become outcome values.
- The SQLite/PDO setup and the first-run detection are plumbing. A new `Store` stands for a freshly created database.
- Password hashing (`password_hash`) and login (`password_verify`) are calls into a library. No password hash is stored, and login is not modelled.
- Ids are modelled as `int`. The casts `(int)$_POST[...]` and the strict `===` comparisons on session ids are not modelled, because their results depend on PHP's and the database driver's typing.
- Timestamps (`created_at`) and message ids are left out. The chat query's `ORDER BY created_at` is modelled as insertion order.
- The chat query's join with `users` is left out. Every sender is a logged-in, existing user, and users are never deleted.
- The chat view's per-message call to `decode_morse` and the page that shows it are rendering. The decoding itself is `MorseCodec.Decode`.
- Text.Upper: upper-cases ASCII letters only. `mb_strtoupper` also maps characters outside ASCII, some of them onto table characters (U+0131 dotless i becomes `I`), and the model does not.
- Text.Split: `\s` is the fixed ASCII set (space, tab, line feed, vertical tab, form feed, carriage return). The pattern has no `u` modifier, so `preg_split` works on bytes; the model's strings are sequences of code points, so byte strings that are not valid UTF-8 are outside the model.
- MorseTable.Flip: stated only for dictionaries with no repeated value. `array_flip` keeps the last key of a repeated value, a case the messenger's table never reaches (`MorseMapInjective`).
- A database write that fails for reasons other than the name's `UNIQUE` column (disk full, locked file) is not modelled. In `send_request` such a failure is caught and reported, and the model never fails there.
