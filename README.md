# Murder-mystery game sessions in Dafny

This project models the game-state core of a small murder-mystery interrogation
backend, `src/lib/characters.ts`. A detective starts a game with a list of
suspects. The backend asks a text-generation provider for a backstory and
stores it in a process-wide session store. It seeds one transcript per suspect,
asks the provider for dossiers and parses them out of the reply. After that,
each chat message from the detective is one dialogue turn: the message is
appended to that suspect's transcript, the provider answers from the whole
transcript, and the answer is appended too.

The model has six modules:

- `Optional` (`optional.dfy`): the `Option` type, standing for JavaScript's `undefined`.
- `Text` (`text.dfy`): `String.prototype.trim` and `String.prototype.split` with a
  literal separator, as JavaScript defines them. `Trim` is characterised as the
  unique text without surrounding whitespace that occurs in its input with only
  whitespace around it. `Split` is characterised by three facts. Joining its pieces
  gives the input back. It cuts at the leftmost occurrences (`LeftmostPieces`):
  no occurrence of the separator starts inside a piece, not even one that runs
  into the separator after it. Any decomposition with both properties is
  `Split` itself (`SplitUnique`). So `"----"` splits into `["", "-"]`.
- `Order` (`order.dfy`): the default `Array.prototype.sort()` order, written as a
  lexicographic order over a per-character rank. `LessIsCodeUnitOrder` proves it is
  the comparison of the strings' UTF-16 code units, surrogate pairs included.
  Any sorted permutation equals `Sort`, so the result does not depend on the
  engine's algorithm.
- `Provider` (`provider.dfy`): a provider reply is `Answer(text)` or
  `Unavailable`. A dialogue provider is a function from the transcript it is
  given to a reply.
- `Dossiers` (`dossiers.dfy`): the pure part of `getDossiers`. The reply is split
  on `---`, every piece is trimmed, and the first piece is dropped. The segments
  are then assigned by position to the first three sorted names; a missing
  segment gives `None` (`undefined`). A failed provider call gives `NoFiles` (the
  program's `[]`).
- `Sessions` (`sessions.dfy`): the store `app.locals.game` as the class
  `GameStore`, holding one `map` from keys to per-game maps.
  - `SetBackstory`, `SeedGame`, `GetDossiers`, `GetCharacterResponse` and
    `StartGame` are methods that update that map in place, with the source's
    for-loop and pushes.
  - Their contracts tie the new store to the specification functions
    `InitialSession` (the seeding loop's result, defined by `Seeded`) and
    `Exchange` (one dialogue turn).
  - `Conversation` repeats `Exchange` over a sequence of messages.
  - Lemmas about these functions give the transcript shapes: one seed entry
    after initialisation, then message and reply alternating, so `1 + 2N`
    entries after `N` answered turns.
  - The invariant `Valid` says every transcript in the store starts with a seed
    entry. While a game's backstory is still under its key, every seed of that
    game was built from that backstory. Every operation keeps it, so the first
    entry sent to the provider for any suspect holds the game's backstory
    (`SeededStoreMentions`).

The store follows the program's layout exactly:
- A game's map holds its backstory under the key `"backstory"` and each
  suspect's transcript under the suspect's name. A suspect called `"backstory"`
  therefore overwrites the backstory, and the model says so (`InitialSessionShape`).
- A repeated suspect name keeps the seed of the last suspect with that name.
- The dossier step writes an empty map under the top-level key `"dossiers"`, not
  inside the game.

The model follows the code as written, including these easily misread behaviours:
- Any number of suspects from three up is accepted. Every suspect is seeded, and
  only the first three sorted names get dossiers. Fewer than three suspects fail
  while the backstory prompt is built, before anything is stored.
- The reply is split on `---` wherever it occurs, not only on a line of its own.
- Too few segments is not an error: the names without a segment are bound to
  `undefined` (`None`).
- A failed backstory call is a hard failure of `startGame`, and no session is
  created. A failed dossier call still leaves the fully seeded game in the store
  and returns `[]`.
- When the provider fails during a dialogue turn, the detective's message stays
  in the transcript and no reply is added.

## Model

| member | source | states |
|---|---|---|
| Text.IsWhitespace | src/lib/characters.ts:61 | defines the characters `trim` removes: the ECMAScript white space (tab, vertical tab, form feed, space, no-break space, U+FEFF and the space separators U+1680, U+2000-U+200A, U+202F, U+205F, U+3000) and line terminators (LF, CR, U+2028, U+2029) |
| Text.TrimStart | src/lib/characters.ts:61 | the result is a suffix of the input, everything removed is whitespace, and the result does not start with whitespace |
| Text.TrimEnd | src/lib/characters.ts:61 | the result is a prefix of the input, everything removed is whitespace, and the result does not end with whitespace |
| Text.Trim | src/lib/characters.ts:61 | the trimmed text neither starts nor ends with whitespace and occurs in the input with only whitespace before and after it |
| Text.TrimIsUnique | src/lib/characters.ts:61 | any text without surrounding whitespace that sits in `s` between whitespace-only borders is `Trim(s)`, so `Trim` is determined by that property |
| Text.TrimIdempotent | src/lib/characters.ts:61 | trimming a trimmed text changes nothing |
| Text.TrimKeepsOut | src/lib/characters.ts:59-61 | trimming never creates a substring (such as the delimiter) that the input did not contain |
| Text.Find | src/lib/characters.ts:60 | the result is the first position at or after `from` where the separator occurs, or none when it does not occur there |
| Text.Split | src/lib/characters.ts:60 | a split always has at least one piece; its content is fixed by SplitJoin, SplitLeftmost and SplitUnique |
| Text.SplitJoin | src/lib/characters.ts:60 | joining the pieces of a split with the separator gives back the input |
| Text.SplitPiecesClean | src/lib/characters.ts:60 | no piece of a split contains the separator |
| Text.SplitLeftmost | src/lib/characters.ts:60 | a split cuts at the leftmost occurrences: no occurrence starts inside a piece, even one reaching into the following separator, and the last piece has none |
| Text.SplitUnique | src/lib/characters.ts:60 | any list of pieces that joins back to the input and cuts at the leftmost occurrences is the split of the input |
| Text.SplitCons | src/lib/characters.ts:60 | a piece with no occurrence starting inside it, followed by the separator, is split off as the first piece |
| Text.SplitFourDashes | src/lib/characters.ts:60 | `"----".split("---")` is `["", "-"]`: the occurrence that starts first wins |
| Text.SplitWithout | src/lib/characters.ts:60 | a text without the separator splits into itself alone |
| Text.SplitOnDelimiter | src/lib/characters.ts:60 | a piece without the delimiter and not ending in a dash, followed by the delimiter, is split off as exactly one piece |
| Order.Rank | src/lib/characters.ts:51 | a character below U+D800 ranks by its code point, as one UTF-16 code unit does; the other bands are fixed by LessIsCodeUnitOrder |
| Order.Less | src/lib/characters.ts:51 | defines the default sort comparison: at the first differing character the lower rank wins, and a proper prefix comes first |
| Order.Units | src/lib/characters.ts:51 | a character below U+10000 is one code unit, any other is a surrogate pair with a high surrogate in D800..DBFF and a low one in DC00..DFFF |
| Order.Utf16 | src/lib/characters.ts:51 | a string's UTF-16 encoding has between one and two code units per character |
| Order.CodeUnitLess | src/lib/characters.ts:51 | defines the string comparison the default `sort()` makes: at the first differing code unit the smaller wins, and a proper prefix comes first |
| Order.LessIsCodeUnitOrder | src/lib/characters.ts:51 | `Less(a, b)` holds exactly when `a`'s UTF-16 code units come before `b`'s |
| Order.UnitsOrder | src/lib/characters.ts:51 | two different characters compare by their encodings exactly as their ranks compare, whatever follows them |
| Order.AstralBetweenBands | src/lib/characters.ts:51 | an emoji (U+1F600) sorts after "z" but before the full-width letter U+FF21, unlike code-point order |
| Order.LessIrreflexive | src/lib/characters.ts:51 | no name sorts before itself |
| Order.LessAsymmetric | src/lib/characters.ts:51 | two names never sort before each other |
| Order.LessTransitive | src/lib/characters.ts:51 | the sort order is transitive |
| Order.LessTotal | src/lib/characters.ts:51 | any two different names are ordered one way or the other |
| Order.LessEqAntisymmetric | src/lib/characters.ts:51 | names that sort at or before each other are equal |
| Order.Insert | src/lib/characters.ts:51 | inserting into a sorted list gives a sorted list with one more element and exactly the old elements plus the new one |
| Order.Sort | src/lib/characters.ts:51 | `sort()` returns the same names (as a multiset), in sorted order |
| Order.SortedUnique | src/lib/characters.ts:51 | two sorted lists holding the same names are equal |
| Order.SortIsDetermined | src/lib/characters.ts:51 | every sorted permutation of the names is `Sort` of them, whatever sorting algorithm the engine uses |
| Dossiers.TrimEach | src/lib/characters.ts:61 | the result has one entry per piece, each the trimmed piece, none with surrounding whitespace |
| Dossiers.Segments | src/lib/characters.ts:59-62 | there is one segment per delimiter, the k-th segment is the trimmed (k+1)-th split piece, and no segment has surrounding whitespace |
| Dossiers.SegmentsClean | src/lib/characters.ts:59-62 | no segment contains the delimiter |
| Dossiers.At | src/lib/characters.ts:68-70 | `dossiers[i]` is the i-th segment when there is one and `undefined` past the end |
| Dossiers.Assign | src/lib/characters.ts:67-70 | the result's keys are exactly the first three sorted names; each name holds the segment at its position (`None` past the end), with a later assignment winning for a repeated name |
| Dossiers.ParseDossiers | src/lib/characters.ts:55-75 | the result is `[]` exactly when the provider call failed; otherwise it binds exactly the three first sorted names, the third to `dossiers[2]`, the second to `dossiers[1]` unless it equals the third, and the first to `dossiers[0]` unless it equals a later one (`undefined` past the end) |
| Dossiers.WellFormedResponse | src/lib/characters.ts:51-70 | a reply made of a preamble and three delimiter-introduced dossiers gives each of the three sorted names, in order, its own trimmed dossier |
| Dossiers.NoDelimiterNoDossiers | src/lib/characters.ts:59-70 | a reply with no delimiter still returns all three names, each bound to `undefined` |
| Dossiers.ThreeDossiersExample | src/lib/characters.ts:51-70 | suspects Carol, Alice, Bob and the reply `"preamble\n---\nA text\n---\nB text\n---\nC text"` give Alice "A text", Bob "B text" and Carol "C text" |
| Dossiers.SplitFourPieces | src/lib/characters.ts:60 | a preamble and three dossiers joined by the delimiter split back into exactly those four pieces |
| Dossiers.SortThree | src/lib/characters.ts:51 | three increasing names given last-first-second sort back into increasing order |
| Sessions.SeedEntry | src/lib/characters.ts:39 | defines the first entry of a transcript: "You are " + description + ". " + instruction + the backstory introduction + the backstory in triple quotes |
| Sessions.SeedMentions | src/lib/characters.ts:39 | a seed entry contains the suspect's description, the character instruction and the backstory as substrings |
| Sessions.NameList | src/lib/characters.ts:51 | the i-th name is the name of the i-th suspect |
| Sessions.LastWith | src/lib/characters.ts:35-41 | finds the last suspect with a given name, the one whose seed the loop writes last, or reports that no suspect has it |
| Sessions.Seeded | src/lib/characters.ts:35-41 | defines the game's map after the loop has run over the given suspects: each suspect's name, in order, bound to a one-entry transcript with its seed |
| Sessions.SeedStep | src/lib/characters.ts:38-40 | one more turn of the seeding loop binds one more suspect's name to its one-entry seeded transcript |
| Sessions.SeededAt | src/lib/characters.ts:35-41 | after the loop a key is present iff it was already present or names a suspect; a suspect's name holds the one-entry seed of the last suspect of that name; other keys keep their values |
| Sessions.InitialSession | src/lib/characters.ts:33-41 | defines the game's new map: the backstory under "backstory", then the seeding loop over all suspects |
| Sessions.InitialSessionShape | src/lib/characters.ts:33-41 | every suspect name maps to a transcript of exactly one seed entry (its own seed when names are distinct); the backstory is kept unless a suspect is named "backstory"; no other keys exist |
| Sessions.InitialTranscriptsSeeded | src/lib/characters.ts:33-41 | every transcript of a new game has exactly one entry, a seed built from the game's backstory, so the new game meets the store invariant |
| Sessions.Exchange | src/lib/characters.ts:81-83 | the provider is asked with the transcript plus the message; with an answer the turn succeeds and the transcript gains the message and the reply; otherwise it fails with `ProviderFailed` and keeps only the message |
| Sessions.Conversation | src/lib/characters.ts:79-86 | defines the transcript after a series of messages, one `Exchange` per message in order |
| Sessions.ConversationShape | src/lib/characters.ts:81-83 | after N answered turns the transcript keeps its old entries and grows by 2N: each message is followed by the provider's reply to the transcript up to and including that message |
| Sessions.ConversationGrows | src/lib/characters.ts:81-83 | whether or not the provider answers, a transcript never loses entries and grows by one or two entries per message |
| Sessions.InterrogationLength | src/lib/characters.ts:38-85 | a freshly seeded transcript has one entry that contains the backstory; after N answered turns it has 1 + 2N entries and still starts with that seed |
| Sessions.SeededStoreMentions | src/lib/characters.ts:38-39 | in a store meeting the invariant, a suspect's first transcript entry holds the game's backstory whenever that backstory is still under its key |
| Sessions.InstallKeepsSeeded | src/lib/characters.ts:33-41 | storing a new game keeps the store invariant: every transcript starts with a seed, built from its game's backstory |
| Sessions.ExtendKeepsSeeded | src/lib/characters.ts:81-83 | appending to a transcript keeps the store invariant |
| Sessions.InstallFrame | src/lib/characters.ts:33-50 | storing one game and resetting the "dossiers" key leaves every other game unchanged |
| Sessions.GameStore.constructor | src/lib/characters.ts:10-11 | every seed the store writes uses the character instruction; that the store starts empty stands for `src/index.ts`, which is left out (see below) |
| Sessions.GameStore.StartGame | src/lib/characters.ts:15-22 | fails, with the store unchanged, when there are fewer than three suspects or no backstory; otherwise returns the game id with the parsed dossiers, and the store gets the initial session under the id and an empty "dossiers" entry |
| Sessions.GameStore.SetBackstory | src/lib/characters.ts:25-43 | the same outcomes as StartGame, returning only the case file; every game other than the new one (and the "dossiers" key) is unchanged, and the seeded-transcript invariant holds |
| Sessions.GameStore.SeedGame | src/lib/characters.ts:32-41 | the game's entry becomes exactly the initial session: backstory plus one seed per suspect, written by the loop in order |
| Sessions.GameStore.GetDossiers | src/lib/characters.ts:47-76 | the top-level "dossiers" key becomes an empty map, nothing else changes, and the result is the parsed case file |
| Sessions.GameStore.GetCharacterResponse | src/lib/characters.ts:79-86 | an unknown game or suspect fails with the store unchanged; otherwise only that transcript changes. With an answer it becomes old + [message, reply] and the reply is returned; with a failed provider it becomes old + [message]. The provider is given old + [message] |

## Left out

- The provider calls (`prompt`, lines 31, 57 and 82) are parameters. A backstory or dossier call is a `Reply`. A dialogue call is a function from the transcript to a `Reply`. The wording of the backstory and dossier prompts and the temperature arguments are not modelled, since they only shape what the provider writes.
- `crypto.randomUUID` (line 17) is the `gameId` parameter of `StartGame`. Freshness is not required: an existing game under the same id would be replaced, and the contract says so.
- Logging (`console.log`, `console.error`) is not modelled.
- `async`/`await` and concurrent turns on one transcript are not modelled. Each operation runs to completion atomically, so the interleaving of two turns racing on one transcript is outside the model.
- `src/index.ts`, where `app.locals.game` is created and the HTTP routes call these functions, is not part of this model. The store is a `GameStore` that starts empty.
- JavaScript property-key quirks of plain objects are not modelled. Examples: a suspect named `__proto__`, or inherited names such as `constructor` that are found without being stored. Every key behaves as an ordinary map key.
- Strings are sequences of Unicode scalar values, not UTF-16 code units. Lone surrogates cannot occur. The sort order is still the code-unit order (`Order.LessIsCodeUnitOrder`).
- Sessions.GameStore.GetCharacterResponse: the provider's error value and the JavaScript `TypeError`s are collapsed into the error kinds `ProviderFailed`, `UnknownGame` and `UnknownSuspect`. Pushing onto the backstory string (a suspect named `"backstory"`) is reported as `UnknownSuspect`.
- Dossiers.ParseDossiers: the `catch` at line 72 would also catch a provider result that is not a string. The model's provider always answers with a string or fails.
- The first three suspects are used in the backstory prompt (lines 27-29) only to build its text. The model keeps only the failure this causes when there are fewer than three suspects.
