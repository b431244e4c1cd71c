# GeoIP transport map — a Dafny model

PostfixTCP-Transport-Map-GeoIP-Relay answers Postfix `tcp_table` transport-map
queries. Postfix sends one email address per line; the service looks up the MX
hosts of the address's domain, resolves the first usable host to an IP address,
finds that address's country in a GeoIP database, and answers
`200 relay:[<target>]` with a relay configured for that country, or a relay of
the default country when anything along the way fails.

This project models the decision logic of `GeoIpTransportMap.go` and proves its
properties:

- `Text` — the pieces of Go's `strings` package the program uses: `strings.Split`
  on a one-character separator (every occurrence, one more piece than separators),
  ASCII `strings.ToUpper`, and `string([]byte)`.
- `Config` — the destination table. `ParseDirective` is one `"XX:target"`
  directive, `Accumulate` the directive loop, `Configure` the whole of
  `argsHandler`. The class `TransportMap` holds the two package-level variables
  `destinationMap` and `defaultTarget`. Its method `ArgsHandler` runs the
  directive loop and is proved to leave exactly the state `Configure` describes.
- `Resolver` — `getEmailDomain`, `getIp`, `genPostfixResponse` and `getResult`.
  DNS (`net.LookupMX`, `net.LookupIP`) and the GeoIP lookup are the oracle
  functions of a `Net` value, each answering `Found(value)` or `Failed`. Each
  `rand.Intn(n)` is an index in `Draws`, with its range as a precondition:
  - `defaultIdx` is the default pick;
  - `ipIdx(k, host)` is the address pick for the MX host at position `k`;
  - `countryIdx(country)` is the target pick; it is drawn at most once per call.
  `WalkMx` is the MX loop. It returns the relay together with the MX records
  whose addresses were looked up and the addresses whose country was looked up,
  so "later hosts are never consulted" is part of its contract. `GetResult` is
  `getResult` as written; `GetResultCorrected` is the same with the default
  index drawn from the right range (see Findings).
- `Connection` — `handleConnection`. `Reader` is the buffered reader and its
  `ReadBytes`. `HandleConnection` is the read/resolve/write loop: it is proved
  to write exactly one reply per `\n`-terminated line, in order, until the
  stream ends or a resolution panics.

`getResult` reads the package-level table. In the model it receives the table
and the default country as parameters. This is sound because `main` serves only
after `argsHandler` succeeded, and nothing writes the table after that; so
`GetResult` requires `ValidTable`, which holds after a successful `ArgsHandler`
(`ConfigureValid`).

Where the code and the documented design differ, the model follows the code:

- A directive is split on every `:` (`strings.Split`), not only the first one.
  So `"US:host:25"` is rejected as malformed (`ExtraColonRejected`).
- `getEmailDomain` accepts an empty local part and an empty domain. It only
  needs exactly one `@`.
- After the first MX host whose address and country lookups both succeed,
  the walk stops, even when that country is not a key. No later host is tried
  (`FirstHitDecides`, `SecondHostUnmapped`).

## Model

| member | source | states |
|---|---|---|
| Text.Split | GeoIpTransportMap.go:116 | `strings.Split` gives one more piece than there are separators |
| Text.SplitSpec | GeoIpTransportMap.go:116 | no piece of a split holds the separator, and joining the pieces with it gives back the input |
| Text.SplitOnce | GeoIpTransportMap.go:116-125 | with exactly one separator the two pieces are the text before and after it |
| Text.ToUpper | GeoIpTransportMap.go:120 | each character is upper-cased on its own (ASCII `a`-`z` to `A`-`Z`, all else unchanged): the length is kept, no lower-case letter is left, and upper-case text is unchanged |
| Text.ByteLen | GeoIpTransportMap.go:121 | Go's `len` on a string, the byte length of its UTF-8 encoding (1 to 4 bytes per character), is at least the number of characters and at most four times it |
| Text.ToUpperByteLen | GeoIpTransportMap.go:120-121 | upper-casing does not change the byte length that the country check measures |
| Text.BytesToString | GeoIpTransportMap.go:161 | `string(data)` has one character per byte, with the byte's value |
| Config.ParseDirective | GeoIpTransportMap.go:115-128 | defines one directive's parse: split on every `:`, the upper-cased country part must be 2 bytes long, the target non-empty; characterised by `ParseDirectiveCases` and `ParseDirectiveOk` |
| Config.ParseDirectiveCases | GeoIpTransportMap.go:115-128 | a directive not holding exactly one `:` is `InvalidFormat`; otherwise, with `i` the position of the `:`, a country part whose UTF-8 length is not 2 bytes is `InvalidCountry` of the upper-cased part, an empty target is `InvalidTarget`, and anything else is accepted as the upper-cased country and the text after the `:` |
| Config.ParseDirectiveOk | GeoIpTransportMap.go:115-128 | an accepted directive is an upper-case country of 2 bytes (one or two characters) and a non-empty target without `:`, and `value` is the country part as typed, `:`, and the target |
| Config.CountryTooLongInBytes | GeoIpTransportMap.go:120-124 | the country length is counted in bytes: `"ÉÉ:x"` is an invalid country, its code being 4 bytes long |
| Config.OneCharacterCountry | GeoIpTransportMap.go:120-130 | the country length is counted in bytes: `"É:x"` is accepted as country `"É"`, 2 bytes long, with target `x` |
| Config.ExtraColonRejected | GeoIpTransportMap.go:116-118 | a directive with two or more colons is rejected as malformed |
| Config.Append | GeoIpTransportMap.go:130 | appending adds the target at the end of that country's list (a missing key reads as empty) and leaves every other key's list unchanged |
| Config.Accumulate | GeoIpTransportMap.go:115-131 | defines the directive loop: directives are appended in order until the first that does not parse, whose error stops the loop with the table reached so far |
| Config.AccumulateFails | GeoIpTransportMap.go:115-131 | the directive loop ends in an error exactly when some directive does not parse |
| Config.AccumulateWellFormed | GeoIpTransportMap.go:115-131 | starting from a well-formed table, every table the loop reaches has upper-case keys of 2 bytes and non-empty lists |
| Config.AccumulateOrder | GeoIpTransportMap.go:130 | after a successful loop each country's list is its old list followed by its directives' targets in input order |
| Config.TargetsOfNonEmpty | GeoIpTransportMap.go:130 | a country gets a target exactly when some accepted directive names it |
| Config.EmptyMappingRejected | GeoIpTransportMap.go:110-113 | zero directives is the `EmptyMapping` error |
| Config.Configure | GeoIpTransportMap.go:102-140 | defines `argsHandler`: `EmptyMapping` for no directive, then the directive loop, then the upper-cased default, which must be a key |
| Config.ConfigureValid | GeoIpTransportMap.go:102-140 | a successful `argsHandler` leaves a valid table whose default is the upper-cased `--default` value and is a key |
| Config.ConfigureSucceeds | GeoIpTransportMap.go:110-138 | construction succeeds exactly when there is a directive, all directives parse, and one of them names the upper-cased default |
| Config.ConfigureOrder | GeoIpTransportMap.go:115-131 | after a successful construction each country's list is exactly its directives' targets, in input order |
| Config.TransportMap.constructor | GeoIpTransportMap.go:34-39 | `init` starts with an empty `destinationMap` |
| Config.TransportMap.ArgsHandler | GeoIpTransportMap.go:102-140 | the new `destinationMap`, `defaultTarget` and error are those of `Configure` on the old map (partial map and raw default on an early error), and success from a well-formed map yields a valid table |
| Resolver.GetEmailDomain | GeoIpTransportMap.go:171-179 | succeeds exactly when the address holds one `@`, and then `local + "@" + domain == email` with no `@` on either side |
| Resolver.GetIp | GeoIpTransportMap.go:201-223 | a failed lookup or no address is an error; one address is returned as is; with several, the drawn one, a member of the list |
| Resolver.Probe | GeoIpTransportMap.go:264-272 | defines one visit of the MX loop: the country of the host's address, or nothing when the address or the country lookup fails |
| Resolver.FirstHit | GeoIpTransportMap.go:263-280 | finds the first MX position whose address and country lookups both succeed; every earlier host is skipped, and None means every host was skipped |
| Resolver.Hosts | GeoIpTransportMap.go:251-262 | defines the MX list the loop visits: empty when the email has no single `@` or the MX lookup fails |
| Resolver.Resolve | GeoIpTransportMap.go:247-282 | defines the relay `getResult` picks from a given default pick: the drawn target of the first hit's country when it is a key, the default pick otherwise; characterised by `FallbackCases`, `FirstHitDecides` and `ResolveFromTable` |
| Resolver.FallbackCases | GeoIpTransportMap.go:251-282 | a bad email, a failed MX lookup, an empty MX list, or no host passing both lookups all give the default pick |
| Resolver.FirstHitDecides | GeoIpTransportMap.go:263-280 | the first host passing both lookups decides: its country's drawn target (a member of that list) when the country is a key, otherwise, an empty ISO code included, the default pick; exactly the hosts up to it are looked up |
| Resolver.SecondHostUnmapped | GeoIpTransportMap.go:263-280 | a first host failing its address lookup is skipped; a second host in an unmapped country ends on the default, after two address lookups and exactly one country lookup |
| Resolver.ResolveFromTable | GeoIpTransportMap.go:247-282 | every relay chosen is a target of some country of the table |
| Resolver.WalkMx | GeoIpTransportMap.go:251-282 | the loop returns the relay `Resolve` specifies, looks up the addresses of exactly the MX hosts up to the first hit (all of them without a hit), and looks up the country of exactly the addresses found |
| Resolver.GenPostfixResponse | GeoIpTransportMap.go:243-245 | the reply is `200 relay:[`, the relay, `]` and a newline, and holds exactly one newline when the relay holds none |
| Resolver.ResponseInjective | GeoIpTransportMap.go:243-245 | different relays give different reply lines |
| Resolver.DefaultPick | GeoIpTransportMap.go:249 | the default pick as written, with the index below `len(defaultTarget)`: a target of the default country when the index is within its list, a panic otherwise |
| Resolver.DefaultPickPanics | GeoIpTransportMap.go:249 | on a valid table the default code is 2 bytes long, so the draw range is `[0, 2)`; with a single default target, the allowed draw 1 panics |
| Resolver.DefaultPickSafe | GeoIpTransportMap.go:249 | with two or more default targets no allowed draw panics, and only the first two targets can be picked |
| Resolver.CorrectedDefaultPick | GeoIpTransportMap.go:249 | drawn below the default list's length, the pick is always that list's target |
| Resolver.CorrectedPickCoversList | GeoIpTransportMap.go:249 | every default target can be the corrected pick |
| Resolver.ReplyOf | GeoIpTransportMap.go:247-283 | the functional form of `getResult`: a panic when the default pick is out of range, otherwise the reply line of `Resolve`'s relay; `GetResult` is proved equal to it |
| Resolver.GetResult | GeoIpTransportMap.go:247-283 | `getResult` panics exactly when the default draw is past the default list, and otherwise answers the reply line of the relay `Resolve` chooses from that default pick |
| Resolver.GetResultCorrected | GeoIpTransportMap.go:247-283 | with the corrected default draw, `getResult` always answers the reply line of the chosen relay |
| Connection.Lines | GeoIpTransportMap.go:146-161 | defines the lines `ReadBytes('\n')` delivers, each without its `\n`; characterised by `LinesFrameStream`, `LinesHoldNoNewline` and `LinesOfFrame` |
| Connection.Fragment | GeoIpTransportMap.go:147-157 | defines the unterminated tail that ends in a read error and is never answered |
| Connection.LinesFrameStream | GeoIpTransportMap.go:146-161 | the stream is exactly its lines, each followed by `\n`, then a fragment holding no `\n` |
| Connection.LinesHoldNoNewline | GeoIpTransportMap.go:147-161 | no line read holds a `\n` |
| Connection.LinesOfFrame | GeoIpTransportMap.go:146-161 | `\n`-free lines framed with `\n` and followed by a fragment without `\n` read back as the same lines: the fragment yields nothing |
| Connection.Reader.constructor | GeoIpTransportMap.go:145 | a new reader starts at the beginning of the stream |
| Connection.Reader.ReadBytes | GeoIpTransportMap.go:147-158 | the bytes up to and including the next `\n`; at the end of the input, the rest of the input with the error that ended it |
| Connection.Answers | GeoIpTransportMap.go:146-168 | defines the replies written for the lines: one per line, in order, up to the first line whose resolution panics; characterised by `AnswersInOrder` |
| Connection.AnswersInOrder | GeoIpTransportMap.go:146-168 | the `i`-th reply answers the `i`-th line; there are no more replies than lines, and exactly as many when no line panics |
| Connection.HandleConnection | GeoIpTransportMap.go:142-169 | the replies written are one per `\n`-terminated line, without its `\n`, in order, until the first panic; a trailing fragment or a read error writes nothing more |
| Connection.ReplyIsRelay | GeoIpTransportMap.go:247-283 | every answer `getResult` gives is `200 relay:[d]` for a target `d` of the table |
| Connection.SessionRepliesAreRelays | GeoIpTransportMap.go:161-167 | every reply of a session is `200 relay:[d]` for a target `d` of the table |
| Connection.SessionAnswersEveryLine | GeoIpTransportMap.go:146-168 | when no default draw is past the default list, every `\n`-terminated line of the session is answered |

## Findings

| source | as written | input that shows it | evidently intended | confidence | as-written member | corrected member |
|---|---|---|---|---|---|---|
| GeoIpTransportMap.go:249 | the default index is `rand.Intn(len(defaultTarget))`, the byte length of the 2-byte country code, so it is 0 or 1 whatever the list length | directives `["US:10.0.0.1"]`, default `US`, draw 1: `destinationMap["US"][1]` is out of range and the goroutine panics; with three or more US targets, the third and later are never picked | `rand.Intn(len(destinationMap[defaultTarget]))` | not executed | Resolver.DefaultPick (with Resolver.DefaultPickPanics, Resolver.GetResult) | Resolver.CorrectedDefaultPick (with Resolver.CorrectedPickCoversList, Resolver.GetResultCorrected) |

## Left out

- `main`'s listen/accept loop and the goroutine per connection: network I/O and concurrency. Each session is modelled on its own.
- `argsParserSetup`, the `--help` flag and `cli.ShowAppHelp*`, `app.Run`: CLI plumbing. The directive list and the raw `--default` value are plain inputs of `ArgsHandler`.
- `net.LookupMX`, `net.LookupIP`, `geoip2.Open`, `db.Country` and `log.Fatal` on a failed database open: foreign calls. They are the oracle functions of `Net`, answering a value or a failure.
- `isIpv4`: not called anywhere, and it depends on `net.IP.To4`.
- `rand.Seed` and the random source: every `rand.Intn` is an index in `Draws`, with its range as a precondition. Address picks are keyed by MX position and host; target picks are keyed by country.
- All `fmt.Printf` logging, and the text of the error messages. The errors carry the values the messages print.
- `strings.ToUpper` on non-ASCII text: only ASCII letters are upper-cased.
- Go strings are byte strings. Directives, the `--default` value and table keys are modelled as character strings, and `len` as their UTF-8 byte length (`ByteLen`). A line read from the connection becomes one character per byte (`BytesToString`), which is how Go's byte-wise `strings.Split` on `@` sees it.
- `conn.Write` failures and `conn.Close`: the model records the replies written and ends the session. EOF and other read errors are told apart only by the `ending` value the reader reports.
- A runtime panic in `getResult` crashes the whole Go process. The model stops the session at that line (`Panicked`) and does not model other sessions.
- Resolver.GetResult: requires the table to have passed `argsHandler` (`ValidTable`), because `main` never calls it on any other table.
