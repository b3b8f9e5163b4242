# redis-bot: dispatcher and transport, modelled in Dafny

redis-bot is a chat bot that lives behind a publish/subscribe broker. A chat
adapter publishes every message it sees on one channel. The router decodes
the message and picks a handler for it, then publishes the handler's
answer on another channel.

This project models the two parts of the router where the decisions are
made:

- **The dispatcher** (`redis_bot/commander.py`).
  - Splitting a message body into a command and its arguments: shell-style,
    or on runs of whitespace when the shell-style split raises.
  - The registry of (condition, function) pairs that the `register` and
    `react` decorators fill, and the list of public functions.
  - The default `"bot" + name` condition and the room whitelist.
  - The generated `help` text.
  - `dispatch`, made of two phases:
    - the exact phase, where the first matching entry wins;
    - the fuzzy fallback: building the pool of close candidates, holding
      back on `from_bot`, re-ranking by score, then either the "NOOOOB"
      reminder or the "Did you mean any of …?" question.
- **The transport** (`redis_bot/lib.py`).
  - The wire codec `mess_encode`/`mess_decode`: every value goes through
    UTF-8 and then base 64 (section 4 of RFC 4648), key by key.
  - The connection object that opens each broker connection once and then
    reuses it.
  - `RedisToChan.send` and `RedisToChan.answer`.
  - The channel routing loop of `ChanToRedis.listen`.

Layout, one module per file:

| file | module | what it holds |
|---|---|---|
| wrappers.dfy | Wrappers | `Option` (Python's None) and `Result` (an operation that may raise) |
| messages.dfy | Messages | a message as `map<string, string>`, `dict.get`, string truthiness |
| pytext.dfy | PyText | `str.join`, splitting on one character, `str.splitlines()[0]`, `re.split(r"\s+")` |
| shlex.dfy | Shlex | `shlex.split` in POSIX mode, as the character state machine of CPython's `shlex` |
| bytes.dfy, utf8.dfy, base64.dfy | Bytes, Utf8, Base64 | the two encodings under the wire codec |
| codec.dfy | Codec | `mess_encode`, `mess_decode` and the round-trip law |
| transport.dfy | Transport | `RedisConnection`, `RedisToChan`, `ChanToRedis` as classes |
| commands.dfy | Commands | `split_command`, the handler and registration records, the conditions, `help` |
| dispatcher.dfy | Dispatcher | `dispatch` as a function of the registry, the message and the scorer, and its properties |
| commander.dfy | Commander | the registry as a class; `register` and `dispatch` as methods proved equal to the specification |

How the source's dynamic features are represented:

- **Similarity scorer.** `fuzz.ratio` is a parameter
  `ratio: (string, string) -> int` of everything that scores, so every
  property holds whatever the scorer computes.
- **Function identity.** A wrapped function is a new object at each
  registration, and `function in public_functions` compares identities.
  The model gives each wrapped function its registration position as an
  `id`, and membership compares ids.
- **Exceptions.** The exceptions that `dispatch`'s own code raises are
  error values:
  - `KeyError` for a missing `mucroom` (rooms whitelist), `from_bot` or
    `mucnick`;
  - `TypeError` for adding the reminder to a handler that returned None.

  Handlers and the custom conditions given to `react` are total functions
  in the model, so an exception raised inside one of them is not modelled
  (see "Left out").
- **The `help` handler.** Its reply depends on the registry at call time,
  so it is a distinct kind of action. `Commander.Registry.Loaded` is the
  registry as importing the module leaves it, with `help` already
  registered.

## Model

| member | source | states |
|---|---|---|
| Commands.SplitCommand | redis_bot/commander.py:24-36 | The tokens are the shell-style words, or the whitespace pieces when shell-style splitting fails. With no tokens the command is "" and there are no args; otherwise the tokens are the command followed by the args. |
| Commands.SplitCommandWords | redis_bot/commander.py:24-36 | Plain words joined by single spaces split back into exactly those words: the first is the command, the rest are the args. |
| Commands.SplitCommandUnterminatedQuote | redis_bot/commander.py:25-30 | An unterminated quote does not make `split_command` fail. `say "hello` falls back to whitespace splitting and still has the command `say`. |
| Shlex.Split | redis_bot/commander.py:26 | A body made only of whitespace, the empty body included, has no words. |
| Shlex.SplitJoinedWords | redis_bot/commander.py:26 | `shlex.split` of plain non-empty words separated by single spaces returns those words. |
| Shlex.SplitUnclosedQuote | redis_bot/commander.py:26-27 | A double quote left open at the end raises the "No closing quotation" error, which is the `ValueError` the fallback catches. |
| PyText.WsSplit | redis_bot/commander.py:30 | `re.split(r"\s+", …)` always returns at least one piece. |
| PyText.WsSplitJoin | redis_bot/commander.py:30 | `re.split(r"\s+", …)` of words without whitespace, joined by single spaces, gives the words back. |
| PyText.WsSplitPieces | redis_bot/commander.py:30 | No piece of the whitespace split contains whitespace, and only the first and last pieces can be empty. |
| Commands.DefaultCondition | redis_bot/commander.py:39-41 | `default_condition` holds iff the command starts with "bot" and the rest of it is the function's name. |
| Commands.CloseCondition | redis_bot/commander.py:44-48 | For a scorer that rates a string against itself at or above the threshold (as `fuzz.ratio` does, with 100), a message that meets `default_condition` never meets `close_condition`. |
| Commands.HoldsDefault | redis_bot/commander.py:39-41 | A function registered without a condition or rooms matches a message exactly when its command is "bot" + the function's name. |
| Commands.Holds | redis_bot/commander.py:69-75 | The registered condition is true iff the base condition holds and either there is no room whitelist or `mucroom` is in it. It raises KeyError("mucroom") iff the base condition holds, a whitelist is given and the message has no room. |
| Commands.React | redis_bot/commander.py:85-86 | `react` registers with the given custom condition and rooms, and is hidden unless told otherwise. |
| Commands.DocLine | redis_bot/commander.py:95-96 | The text after the name in a help line never contains a newline. |
| Commands.HelpText | redis_bot/commander.py:90-100 | `help` returns "" when there are no public functions; otherwise its text begins with the line of the first public function. |
| Commands.HelpListing | redis_bot/commander.py:89-100 | Split on newlines, the help text has one line per public function, in order: "bot<name>: <first doc line or 'not documented'>". |
| PyText.FirstLine | redis_bot/commander.py:95 | The first line of a docstring is its longest prefix without a `str.splitlines` line boundary. |
| Commander.Registry.Empty | redis_bot/commander.py:51-52 | Both lists start empty. |
| Commander.Registry.Loaded | redis_bot/commander.py:89-90 | After import, `help` is the one registered function, it is public, and it has no custom condition and no rooms. |
| Commander.Registry.Register | redis_bot/commander.py:61-82 | Appends exactly one entry to the end of `conditions_functions`. Appends the wrapped function to `public_functions` iff `hide` is false. Nothing else changes, and the registry invariant is kept. |
| Commander.PublicsMembers | redis_bot/commander.py:77-82 | The public functions are exactly the registered functions that were not hidden. |
| Commander.PublicsAppend | redis_bot/commander.py:77-82 | Public functions keep registration order: the public functions of a registry extended by more registrations are the old ones followed by those of the new registrations. |
| Commander.PublicIffNotHidden | redis_bot/commander.py:80-81 | In a registry, `function in public_functions` holds iff the function was registered without `hide`. |
| Dispatcher.ExactSucceeds | redis_bot/commander.py:108-111 | The exact phase raises iff some entry's condition raises, and then with KeyError("mucroom"), since every condition is evaluated. |
| Dispatcher.ExactMembers | redis_bot/commander.py:108-111 | The exact candidates are exactly the functions whose condition holds. |
| Dispatcher.ExactFirst | redis_bot/commander.py:108-112 | When entry i is the first whose condition holds, its function heads the exact candidates. |
| Dispatcher.DispatchFirstMatch | redis_bot/commander.py:108-114 | If some condition holds and none raises, dispatch calls the first matching function in registration order, with the message and the args, and returns its result unchanged. |
| Dispatcher.DispatchRoomError | redis_bot/commander.py:108-111 | A condition that raises makes dispatch raise KeyError("mucroom"), whatever the other entries say. |
| Commander.Registry.ExactCandidates | redis_bot/commander.py:108-111 | The loop over the registry returns the exact candidates, or the first exception a condition raises. |
| Dispatcher.PoolMembers | redis_bot/commander.py:117-133 | The pool holds exactly the public functions without a custom condition whose `ratio(command, "bot" + name)` is below 90. Both branches on the "bot" prefix make the same test, so the prefix does not matter. |
| Dispatcher.PoolAppend | redis_bot/commander.py:117-133 | The pool is built in registration order: the pool of a + b is the pool of a followed by the pool of b. |
| Dispatcher.NeverFuzzy | redis_bot/commander.py:119-120 | A function registered with a custom condition (`react`), or one that is not public, is never a close candidate. |
| Commander.Registry.CloseCandidates | redis_bot/commander.py:117-133 | The loop over the registry returns the pool, with the prefix test written as in the source. |
| Dispatcher.FromBotSuppresses | redis_bot/commander.py:134 | Without an exact match, a truthy `from_bot` makes dispatch return None, whatever the registry holds. |
| Dispatcher.EmptyPoolSilent | redis_bot/commander.py:169-170 | Without an exact match and without an eligible function, dispatch returns None, and `from_bot` is not looked up. |
| Dispatcher.FromBotMissing | redis_bot/commander.py:134 | Without an exact match, a non-empty pool and no `from_bot` field make dispatch raise KeyError("from_bot"). |
| Dispatcher.Noob | redis_bot/commander.py:137-140 | The reply of a fuzzily chosen handler gets "\n<mucnick>: It was bot<name>, NOOOOB!" appended. A missing `mucnick` raises KeyError first; a None result raises TypeError. |
| Dispatcher.Scores | redis_bot/commander.py:141-147 | The re-ranking score of each candidate is `ratio(name, command)`, with the bare name and without the "bot" prefix. |
| Dispatcher.MaxOf | redis_bot/commander.py:148-149 | The best score is one of the scores, and no score is above it. |
| Dispatcher.BestMembers | redis_bot/commander.py:150-154 | The filtered candidates are exactly the pool members scoring the best score. |
| Dispatcher.BestAppend | redis_bot/commander.py:151-155 | The filter keeps pool order: filtering a + b gives the kept candidates of a followed by those of b. |
| Dispatcher.Best | redis_bot/commander.py:151-155 | The filter keeps at most as many candidates as the pool has, each scoring exactly the best score. |
| Dispatcher.BestNonEmpty | redis_bot/commander.py:141-154 | The filtered list is never empty, and every pool member scores at most the best score. |
| Dispatcher.DispatchUniqueWinner | redis_bot/commander.py:134-161 | With no exact match and a falsy `from_bot`, a candidate that outscores every other one is invoked. Its reply gets the NOOOOB reminder, or dispatch raises as `Noob` states. This covers a lone candidate too. |
| Dispatcher.DispatchTie | redis_bot/commander.py:162-168 | When two candidates tie at the top score, dispatch replies "Did you mean any of " + the "bot" names of all top scorers joined by ", " + "?", in pool order. |
| Dispatcher.BotNames | redis_bot/commander.py:163-164 | Each listed name is "bot" followed by the candidate's name, in order. |
| Commander.ScoreAll | redis_bot/commander.py:141-147 | The loop computes the re-ranking scores. |
| Commander.BestScore | redis_bot/commander.py:148-149 | The loop computes exactly the maximum of the scores. |
| Commander.KeepBest | redis_bot/commander.py:150-154 | The loop keeps exactly the candidates with the best score, in order. |
| Commander.Rerank | redis_bot/commander.py:141-154 | Scoring, taking the maximum and filtering give the filtered list of the specification. |
| Commander.AskWhich | redis_bot/commander.py:163-168 | The loop builds the "Did you mean" question. |
| Dispatcher.Dispatch | redis_bot/commander.py:103-171 | `dispatch` raises only KeyError("mucroom"), KeyError("from_bot"), KeyError("mucnick") or TypeError. With nothing registered it returns None. |
| Dispatcher.Exact | redis_bot/commander.py:108-111 | The exact phase yields at most one candidate per registered entry. The only exception it raises is KeyError("mucroom"). |
| Dispatcher.InPool | redis_bot/commander.py:119-132 | The pool test, as written with both branches on the "bot" prefix, holds iff the function is public, has no custom condition and passes `close_condition`. The prefix plays no part. |
| Dispatcher.Pool | redis_bot/commander.py:117-133 | The pool has at most one candidate per registered entry; `Dispatcher.PoolMembers` says which. |
| Dispatcher.Fuzzy | redis_bot/commander.py:135-168 | The reply drawn from the pool raises only KeyError("mucnick") or TypeError. A lone candidate with no `mucnick` in the message raises KeyError("mucnick"). |
| Dispatcher.Invoke | redis_bot/commander.py:114 | Calling `help` always returns a string. Any other function's return value is passed on unchanged. |
| Commander.Registry.Dispatch | redis_bot/commander.py:103-171 | `dispatch` run step by step on the registry returns what `Dispatcher.Dispatch` specifies, reply or exception. |
| Codec.MessEncode | redis_bot/lib.py:18-22 | The encoded message has exactly the keys of the message. |
| Codec.MessDecode | redis_bot/lib.py:10-15 | Decoding succeeds iff every value is valid base 64 of valid UTF-8; the decoded message then has exactly the keys of the wire form. |
| Codec.EncodePerKey | redis_bot/lib.py:20 | Each encoded value is base64(UTF-8(value)) of the value under the same key, independent of the other keys. |
| Codec.DecodePerKey | redis_bot/lib.py:12 | Each decoded value is the decoding of the wire value under the same key. |
| Codec.EncodeValue | redis_bot/lib.py:20 | An encoded value has a length that is a multiple of four, and it is empty iff the value is. |
| Codec.DecodeValue | redis_bot/lib.py:12 | Only wire values whose length is a multiple of four decode, and the empty wire value decodes to "". |
| Codec.DecodeEncodeValue | redis_bot/lib.py:12 | Decoding an encoded value gives it back. |
| Codec.DecodeEncode | redis_bot/lib.py:10-22 | Round trip: `mess_decode(mess_encode(m)) == m` for every message. |
| Codec.EncodeInjective | redis_bot/lib.py:18-22 | Distinct messages have distinct wire forms. |
| Base64.Encode | redis_bot/lib.py:20 | `b64encode` output has 4 characters per started group of 3 bytes. |
| Base64.Value | redis_bot/lib.py:12 | A character has a 6-bit value only if it is the alphabet symbol for that value. |
| Base64.Decode | redis_bot/lib.py:12 | `b64decode` accepts only input whose length is a multiple of four. |
| Base64.DecodeEncode | redis_bot/lib.py:12 | `b64decode(b64encode(b)) == b` for every byte string. |
| Base64.EncodeAlphabet | redis_bot/lib.py:20 | The encoder writes only alphabet characters, except for at most two padding characters at the end. |
| Utf8.Encode | redis_bot/lib.py:20 | Each character takes one to four bytes. |
| Utf8.Decode | redis_bot/lib.py:12 | A decoded string has at most as many characters as there were bytes. |
| Utf8.DecodeEncode | redis_bot/lib.py:12 | Strict UTF-8 decoding of an encoded string gives it back. |
| Utf8.EncodeDecode | redis_bot/lib.py:12 | Whatever the strict decoder accepts, it decodes to the string whose encoding is exactly those bytes. |
| Transport.RedisConnection.constructor | redis_bot/lib.py:26-40 | The defaults are `localhost`, 6379, `bot:comm:from`, `bot:comm:to` and `bot:comm:control`. Both connections start as None. |
| Transport.RedisConnection.IncomingConnection | redis_bot/lib.py:48-52 | The incoming connection is opened, to the configured host and port, only while it is None. Afterwards it is set, and every later access returns the same object. |
| Transport.RedisConnection.OutgoingConnection | redis_bot/lib.py:54-58 | The same for the outgoing connection. |
| Transport.RedisToChan.Send | redis_bot/lib.py:90-93 | Publishes the encoded message once, on `channel_to`, over the outgoing connection, which is reused when already open. |
| Transport.RedisToChan.Answer | redis_bot/lib.py:95-97 | Sets `mess["text"] = content` in the caller's dict, leaving every other field as it was. Then it publishes that dict, encoded. |
| Transport.AnswerPayload | redis_bot/lib.py:95-97 | The published reply decodes to the original message with only `text` added or replaced. |
| Transport.Route | redis_bot/lib.py:71-86 | The generator yields at most one message per delivery. |
| Transport.ChanToRedis.Listen | redis_bot/lib.py:66-86 | `listen` opens the incoming connection unless it is already open, and otherwise reuses it. Then the branching loop over the deliveries yields what `Transport.Route` specifies, and stops with the same error. |
| Transport.RouteYieldsOnlyTo | redis_bot/lib.py:73-75 | Every yielded message is the decoding of a delivery on `channel_to`. |
| Transport.RouteSkipsControl | redis_bot/lib.py:76-78 | A well-formed control message is never yielded and changes nothing in what is yielded, wherever it arrives. |
| Transport.RouteComplete | redis_bot/lib.py:71-75 | Until the generator stops, it yields every delivery on `channel_to`, decoded, in delivery order. |

## Where the description of the system and the code differ

The model follows the code in each case:

- **Re-ranking score.** Candidates are re-ranked by
  `ratio(name, command)`, with the bare name. The description of the
  system says `"bot" + name`.
- **Closeness test.** Functions enter the pool when
  `ratio(command, "bot" + name) < 90`, that is when they are *not*
  similar. The model keeps the comparison as written.
- **`from_bot`.** The flag arrives as a decoded string, so
  `not mess["from_bot"]` is string truthiness. Any non-empty value, even
  "False", suppresses the fallback. The field is only looked up when the
  pool is non-empty, and a missing field raises KeyError.
- **The exact phase.** It evaluates every condition. An entry after the
  winning one can still raise KeyError for a missing `mucroom`, and that
  aborts the dispatch.

## Left out

- The asyncio loops `listen` (redis_bot/commander.py:174-184), `RedisToChan.listen` (redis_bot/lib.py:105-113), `sync_listen` and `listen_messages`, and the module-level `answer` of redis_bot/lib.py: event-loop and broker plumbing around the modelled steps. `RedisToChan.listen` decodes every delivery on `channel_from`, with the same codec as the modelled `ChanToRedis.listen`.
- Opening real broker connections, `start_subscribe`, `subscribe` and `publish`: these belong to the broker library. A connection is an object with an endpoint, and publishing appends to the `sent` log.
- `ChanToRedis.send`: it publishes an already-encoded message with no logic of its own.
- The IPython and ipdb control actions (redis_bot/lib.py:79-86): interactive debugging side effects. A control message is decoded and its `body` read, and nothing more.
- `luckierThan`: a random number in floating point.
- The internals of `fuzz.ratio`: a foreign library. Every property holds for any scoring function.
- JSON text serialisation: the decoded JSON object is the map itself.
- Logging calls and setup.py.
- Non-string values: messages are `map<string, string>`, so `str(value)` in `mess_encode` is the identity.
- Base64.Decode: accepts only canonical, padded base 64, a subset of what the non-validating `b64decode` accepts. `b64decode` discards characters outside the alphabet, skips `=` in the first two positions of a group, and ignores everything after a pad that completes a group: "QUJD====" gives b"ABC" and "QQ==QUJD" gives b"A". The model rejects all such input, so `Transport.Route` stops with `UndecodableMessage` where the source would yield a message. The encoder only ever produces canonical input.
- Utf8.Encode: strings are sequences of Unicode scalar values, so lone surrogates, which Python strings can hold and `encode("utf-8")` rejects, do not occur.
- Exceptions raised inside a handler, and calls with the wrong number of arguments: a handler is a total function from the message and arguments to an optional string.
- Dispatcher.ExactSucceeds, Dispatcher.DispatchRoomError: a custom condition given to `react` is a total function from the message to a bool. In the source, `self.condition(message)` (redis_bot/commander.py:71) runs inside the comprehension of the exact phase, so an exception it raises would abort `dispatch`, and a truthy non-bool result would flow into `res`. Both are left out, and the claim that KeyError("mucroom") is the only exception of the exact phase holds within this abstraction.
- Transport.RedisConnection.IncomingConnection, Transport.RedisConnection.OutgoingConnection: each access is one atomic step. In the source an `await` separates the None test from the assignment (redis_bot/lib.py:50-51, 56-57), so two coroutines accessing a connection for the first time at once can open two connections. Concurrency is not modelled.
- Commander.Registry.Register: `register.__call__` also stores the condition as `bot_condition` on the function it is given (redis_bot/commander.py:62). The model makes a fresh wrapped function for each registration. So stacking two decorators on one function is not modelled: in the source the outer one overwrites the inner registration's `bot_condition`.
- Transport.ChanToRedis.Listen: models a finite prefix of the never-ending delivery stream. `start_subscribe` and `subscribe` are not modelled: the deliveries are those the broker sends to the subscriber.
