# Verified model of the edge proxy

A Dafny model of the parts of the proxy in which a small slip would send a client to the wrong place, serve the
wrong certificate or lose bytes, with the properties those parts are relied on for.

* **Two ClientHello parsers** (`Wire`, `ClientHelloMessage`, `FastParser`, `FullParser`, `ParserTheorems`,
  `ParserAgreement`, `NameRanges`, `NameAgreement`, `ParserDeviations`, `InputStability`, `SettledInput`, `UnmarshalVerdict`).
  `ExtractSNI` is an allocation-free walk to the first host name; `ClientHello.Unmarshal` fills a receiver that
  callers reuse. Both are proved against position-level functions on arbitrary bytes. Those functions are proved to
  invert an encoder written from sections 4, 4.1.2, 4.2 and 5.1 of RFC 8446 and section 3 of RFC 6066, and compared
  with each other: the two parsers report the same name on exactly the accepted buffers that `NameAgreement.Canonical`
  describes, and `ExtractSNI`'s answer on a first read is final on exactly the inputs that `SettledInput.Settled`
  describes.
* **The certificate store** (`CertFiles`, `CertStore`, `ObtainProtocol`, `ObtainTheorems`, `ObtainProgress`,
  `ObtainHistory`, `ObtainFreshness`, `ObtainProvenance`, `SequentialObtain`, `LoneCaller`, `AcmeDomains`). The class `Manager` is the
  sequential code. `ObtainProtocol` is the same code with any number of concurrent callers: every loop iteration, lock
  operation, CA answer, disk failure and clock tick is a step, and theorems hold for every sequence of steps.
  `LoneCaller` proves that every run of a caller alone, with time passing as it likes, ends as the class promises, and
  `SequentialObtain` that each such end is reached when the clock stands still. `AcmeDomains` is the list of names the
  manager starts with.
* **The passthrough relay** (`Relay`). One read decides the route, what it consumed is replayed, and the copy loop
  moves the rest; conservation holds over every trace of reads, timeouts, cancellations and failed writes.
* **Selection and caching** (`HostMatching`, `DnsProviders`, `TrustedCache`, with strings in `Text`). Route choice,
  wildcard keys, DNS provider choice and the CIDR cache, each against a declarative statement of what it should be.

Code that updates state is a class or a method with loops, proved against a function of the inputs or the old state;
the theorems are about that function. Pure searches are functions.

Assumptions the statements rest on, all visible as parameters or definitions: `path.Match` is an arbitrary relation,
with `GlobLaws` listing the three facts one theorem needs of it (`SimpleGlobObeysLaws` shows a plain glob has them);
parsing one CIDR string is an arbitrary function; a stream reports end of file only after its last byte; clock
readings, CA answers, key pairs, directory contents and read outcomes are inputs.

Where the code and its documentation differ, the model follows the code:

* `isTLSHandshake` (crypto/tls/extract_sni.go:35) rejects handshake type 0x16 instead of requiring 0x01, so
  `ExtractSNI` also reads other handshake messages (`ParserDeviations.OtherHandshakesAreRead`).
* `skipClientHelloHeaders` compares with `>` before it indexes (crypto/tls/extract_sni.go:40-43), so a record of
  exactly 43 bytes indexes past the slice (`ParserAgreement.PanicsExactlyAt43`).
* `ExtractSNI` bounds extensions by the buffer rather than by the extension block (line 78) and ignores the length of
  the server-name list (lines 91-103); `ParserDeviations.OverrunsAreRead` gives messages on which it therefore returns
  a name that `Unmarshal` does not report. It looks at the first entry alone, so it misses a host name behind another
  entry that `Unmarshal` reports (`ParserDeviations.SecondEntryIsMissed`).
* The comment on `copyContext` (proxy/tcp_proxy.go:338-340) says it returns the number of bytes copied; it returns
  only an error.
* README.md:200 says hosts match exactly or by `*.example.com`; an empty route host and `*` match everything, and a
  wildcard host matches any number of labels below the zone, while a wildcard certificate covers one.

## Model

| member | source | states |
|---|---|---|
| FullParser.ClientHello.Unmarshal | crypto/tls/hello.go:67-103 | For every buffer and every earlier state of the receiver: the result and all fields afterwards, failed calls included, are those of the function `Unmarshaled`; no index leaves the buffer. |
| FullParser.ClientHello.ParseClientHelloBody | crypto/tls/hello.go:25-65 | Fields are overwritten in order until the first refusal, each error at its own bound; on success the position after the compression methods, cipher suites decoded two bytes each. |
| FullParser.ClientHello.ParseExtensions | crypto/tls/hello.go:139-154 | Appends the host names of every type-0 extension before `extEnd`, in order, as far as the four slots go; slots not reached keep their contents. |
| FullParser.ClientHello.ParseSNIExtension | crypto/tls/hello.go:116-136 | Appends the type-0 entries of the list, in order, until the list ends, an entry overruns it or four names are stored; a list longer than its data contributes none. |
| FullParser.ClientHello.constructor | crypto/tls/hello.go:15-23 | A fresh receiver has a 32-byte zero random, four empty slots and no name in use. |
| FullParser.ParseBody | crypto/tls/hello.go:25-65 | Whatever the input, the names and their count are untouched, the random stays 32 bytes, and a successful body ends between byte 38 and the end of its slice. |
| FullParser.StoreNames | crypto/tls/hello.go:123-133 | The count is the number of names given, but at most four; slot i holds the i-th name, and a slot that gets none keeps what it had. |
| UnmarshalVerdict.AcceptsExactly | crypto/tls/hello.go:67-103 | In the bytes of the buffer: `Unmarshal` succeeds if and only if the first byte, the record length, the handshake type, and every length field of the body and the block is right for the bytes that are there. |
| UnmarshalVerdict.TruncatedRecordIsRefused | crypto/tls/hello.go:73-76 | A record that announces more bytes than have arrived is refused, and the receiver is left alone. |
| UnmarshalVerdict.HeaderErrors | crypto/tls/hello.go:67-80 | Which of the header errors a buffer gets, in the order of the checks, with the receiver left alone. |
| UnmarshalVerdict.BodyErrors | crypto/tls/hello.go:175-206 | Behind correct headers the error names the first length field that is missing or runs over the end, at its exact position. |
| UnmarshalVerdict.FieldsAreTheBytes | crypto/tls/hello.go:25-65 | For every accepted buffer, well formed or not, each field before the names is the bytes at its position, cipher suites as big-endian pairs with an odd last byte dropped. |
| UnmarshalVerdict.RefusalLeavesPartOfIt | crypto/tls/hello.go:25-65 | After a refusal behind the headers the fields read before it are those of the refused message, and those behind it are as they were. |
| UnmarshalVerdict.MessageLayout | crypto/tls/hello.go:8-13 | An encoded message has the record, handshake and body fields where RFC 8446 puts them, byte for byte. |
| UnmarshalVerdict.ServerNameLayout | crypto/tls/hello.go:116-136 | An encoded server_name extension is, byte for byte, the one of section 3 of RFC 6066. |
| ParserTheorems.UnmarshalInvertsEncode | crypto/tls/hello.go:25-154 | For every ClientHello whose lengths fit their fields, on any receiver, `Unmarshal` of its encoding (with anything behind it if it has an extension block) succeeds and recovers version, random, session id, cipher suites, compression methods and the first four host names across all server_name extensions. |
| ParserTheorems.BodyDecodes | crypto/tls/hello.go:25-65 | The body parser inverts the encoding of the fields before the extensions and stops exactly behind them. |
| ParserTheorems.CipherSuitesDecode | crypto/tls/hello.go:53-59 | Reading cipher suites back gives the list that was encoded. |
| ParserTheorems.EntriesDecode | crypto/tls/hello.go:123-135 | Walking an encoded ServerNameList yields exactly its host_name entries in order, whatever other entry types lie between. |
| ParserTheorems.ExtensionsDecode | crypto/tls/hello.go:139-154 | Walking an encoded extension list yields the host names of all its server_name extensions in order and nothing from the others. |
| FastParser.ExtractSNI | crypto/tls/extract_sni.go:18-29 | Returns the bytes at the range `Locate` names, a slice of the input, or no name, or the one out-of-range index; every other access is in bounds. |
| FastParser.ExtractSNIFromExtensions | crypto/tls/extract_sni.go:61-88 | The loop stops at the first type-0 extension and returns what its first entry says, or nothing once an extension overruns the handshake. |
| FastParser.ParseSNIExtension | crypto/tls/extract_sni.go:91-104 | Only the first entry counts, only if it is a host_name and fits the data; the list length is not consulted. |
| FastParser.SkipClientHelloHeaders | crypto/tls/extract_sni.go:38-59 | A position it returns leaves room for the block length, and it indexes out of range exactly on a handshake of 38 bytes. |
| FastParser.FirstServerName | crypto/tls/extract_sni.go:74-86 | Terminates without a bad index, and a name it finds lies inside the slice behind the two extension headers. |
| FastParser.Locate | crypto/tls/extract_sni.go:18-29 | A located name is a contiguous range of the input. |
| ParserAgreement.PanicsExactlyAt43 | crypto/tls/extract_sni.go:31-43 | `ExtractSNI` indexes past its slice if and only if the data passes the handshake test and is 43 bytes long (`PanicExample` is one such record). |
| ParserAgreement.HeaderWalksCoincide | crypto/tls/extract_sni.go:38-59 | For every handshake of at least four bytes the fast walk reaches p + 4 if and only if the full body parse ends at p with two bytes to spare. |
| ParserAgreement.FirstServerNameDecodes | crypto/tls/extract_sni.go:74-86 | On an encoded extension list, after any number of other extensions, the fast walk returns the first entry of the first server_name extension if that is a host_name, and nothing otherwise; once there is a server_name extension the block may end anywhere behind the list. |
| ParserAgreement.ExtractInvertsEncode | crypto/tls/extract_sni.go:18-104 | For every encoded ClientHello, followed by anything when it has a block, `ExtractSNI` returns the first entry of the first server_name extension, by induction over the extensions. |
| ParserAgreement.ExtractIgnoresTheRest | crypto/tls/extract_sni.go:18-104 | For every record whose block starts with any encoded extensions, a server_name extension among them, `ExtractSNI` returns its first name whatever bytes, well-formed or not, follow inside the block and behind the record. |
| NameRanges.NamesLieInOrder | crypto/tls/hello.go:67-154 | After a successful `Unmarshal` every name in use, slot by slot, is a contiguous piece of the buffer, and each piece lies behind the one before it without overlap. |
| NameRanges.ExtensionRangesAreNames | crypto/tls/hello.go:116-154 | The names of all server_name extensions of a block are the bytes at increasing, disjoint ranges of it. |
| NameAgreement.SlotZeroIsLocated | crypto/tls/hello.go:116-136 | After a successful `Unmarshal` slot 0 holds the bytes at one definite range of the buffer, and is in use exactly when there is such a range. |
| NameAgreement.WalkAgreement | crypto/tls/extract_sni.go:61-104 | On one extension block the two walks meet the same name at the same place if and only if the first type-0 extension fits the block and starts with a host_name that fits its list. |
| NameAgreement.ParsersAgreeExactlyOnCanonical | crypto/tls/extract_sni.go:61-104 | For every buffer `Unmarshal` accepts, `ExtractSNI` returns the very bytes stored in slot 0 if and only if the buffer is canonical: both directions of the refinement. |
| NameAgreement.SilentExactly | crypto/tls/extract_sni.go:61-104 | On every buffer `Unmarshal` accepts, neither parser finds a name if and only if there is no block, or no server_name extension in it holds a host name and the first one within the buffer does not start with one either. |
| NameAgreement.AgreementIsCanonicalOrSilent | crypto/tls/extract_sni.go:61-104 | For every buffer `Unmarshal` accepts, the two answers are the same, a name at one place or none, if and only if the buffer is canonical or silent. |
| NameAgreement.FastParserRefinesFull | crypto/tls/hello.go:67-154 | On canonical buffers `ExtractSNI` returns `SNIHostNames[0]`, whatever the receiver held before. |
| NameAgreement.AcceptedBuffersDoNotPanic | crypto/tls/extract_sni.go:38-43 | A buffer `Unmarshal` accepts never reaches the out-of-range index of `ExtractSNI`. |
| ParserDeviations.TypeIsIgnored | crypto/tls/extract_sni.go:31-36 | Replacing the handshake type by any other than 0x16 changes nothing in what `ExtractSNI` returns, on any data. |
| ParserDeviations.OtherHandshakesAreRead | crypto/tls/extract_sni.go:31-36 | Every encoded message with its type changed to neither 0x01 nor 0x16 is refused by `Unmarshal` and still gives its name to `ExtractSNI`. |
| ParserDeviations.SecondEntryIsMissed | crypto/tls/extract_sni.go:91-104 | On every well-formed message whose one list holds another entry type and then a host name, `Unmarshal` reports the name and `ExtractSNI` none. |
| ParserDeviations.OverrunsAreRead | crypto/tls/extract_sni.go:78-103 | On every message whose one server_name extension, holding one host name, overruns the block within the buffer, or whose entry overruns the list, `Unmarshal` succeeds without a name and `ExtractSNI` returns that one. |
| InputStability.FoundNameIsStable | crypto/tls/extract_sni.go:18-88 | A name found in p is found, at the same place, in p + q for every q. |
| SettledInput.FinalExactlyWhenSettled | crypto/tls/extract_sni.go:18-104 | The answer on p is the answer on p + q for every q if and only if a name was found, or the first byte, byte 5 or the extension walk so far already excludes one; the out-of-range index is never final. |
| SettledInput.ClosedWalk | crypto/tls/extract_sni.go:74-104 | Once the walk is closed, no bytes behind those at hand make it find a name. |
| SettledInput.OpenCanBeFound | crypto/tls/extract_sni.go:74-104 | While the walk is open, some continuation makes it find a name. |
| InputStability.BlockStable | crypto/tls/hello.go:67-103 | A successful `Unmarshal` that saw an extension block gives the same receiver and result on every longer input. |
| InputStability.NoBlockUnstable | crypto/tls/hello.go:80-93 | Without a block, two more bytes turn the success into the truncated-extensions error. |
| InputStability.UnmarshalStableExactlyWithBlock | crypto/tls/hello.go:67-103 | A successful answer survives every continuation of the input if and only if the message had a block. |
| InputStability.AfterCalls | crypto/tls/hello.go:67-136 | Every state a receiver can reach by calls keeps 0 <= SNICount <= 4 and a 32-byte random. |
| InputStability.ReceiverShowsNoHistory | crypto/tls/hello.go:50-101 | After any sequence of calls, accepted or refused, the next call answers as on a fresh receiver, and on success every field and every name in use is the same. |
| InputStability.RefusalKeepsNames | crypto/tls/hello.go:67-99 | A refused message leaves names and count of the last accepted one in place, though earlier fields may already be overwritten. |
| CertStore.Manager.GetCertificate | acme/manager.go:45-74 | With a name: the certificate stored under the very name if there is one, else the one under `*.` and what follows its first dot, else none. Without a name: some stored certificate, none only if the store is empty. |
| CertStore.LookupMeaning | acme/manager.go:57-72 | The exact name comes before the wildcard key, that key is `*.` and what follows the first dot, and nothing else serves. |
| CertStore.Manager.EnsureDomains | acme/manager.go:77-108 | Asks the CA if and only if, at each of the two checks, some listed domain has no expiry or one less than the renewal window after the clock reading for it; fails exactly when that attempt fails; changes the store only on success, and then every listed name has the new certificate and its expiry; a nil return means every listed name is served. |
| CertStore.Manager.ObtainCertificate | acme/manager.go:111-182 | The recheck alone decides whether to ask, by the same comparison; a failure of CA, disk or key pair leaves both maps as they were; on success every listed name gets the certificate with its own expiry, or three months on if it states none. |
| CertStore.Manager.StoreBundle | acme/manager.go:173-179 | Both maps are assigned at every listed name and keep equal key sets throughout. |
| CertStore.Manager.LoadCertificatesFromDisk | acme/manager.go:210-264 | A missing directory loads nothing and is no error, one that cannot be listed is an error. Of its entries those without `.crt`, without key file or without a valid pair are skipped. Afterwards both maps have every key they had and every name some other entry brings, with the certificate and the expiry of the last entry that brings it; a certificate without names brings the decoded file name. |
| CertStore.LoadedAt | acme/manager.go:222-262 | For every map, directory and key: the key is present iff it was before or a usable file brings it, and its value is that of the last such file, or else the earlier one. |
| CertStore.NamesAreLoaded | acme/manager.go:240-261 | Every name of the certificate of every file that ends in `.crt`, has its key and parses is a key after loading. |
| CertStore.LastFileWins | acme/manager.go:254-261 | What the last file of a directory brings under a name is what the name has after loading. |
| CertStore.BadFileIsSkipped | acme/manager.go:222-238 | A file without `.crt`, without its key or that does not parse changes nothing. |
| CertStore.Manager.constructor | acme/manager.go:33-42 | A new store is empty with equal key sets. |
| CertStore.StoreAllAt | acme/manager.go:173-179 | After storing a bundle a key is present iff it was before or the list covers it, and has the new value iff the list covers it. |
| CertStore.SavedFileIsReloaded | acme/manager.go:245-261 | A certificate without names is loaded back under the domain it was saved for if and only if the normalised domain does not contain `_wildcard`. |
| CertFiles.FileNameRoundTrip | acme/manager.go:146-250 | Writing `*` as `_wildcard` and replacing back, leftmost first, returns the name if and only if it does not contain `_wildcard` itself. |
| CertFiles.EscapedForm | acme/manager.go:146 | A wildcard domain is written as `_wildcard` and the rest, a domain without `*` as it is. |
| CertFiles.UnescapeAfterEscape | acme/manager.go:146-250 | Decoding an encoded name equals decoding the name itself: inserted copies are never straddled or overlapped. |
| CertFiles.MatchesAreCopies | acme/manager.go:250 | A match at a position that is not an inserted copy was already in the original name. |
| ObtainProtocol.StepKeepsInv | acme/manager.go:77-182 | Every step by any caller, the CA, the disk or the clock keeps: equal key sets, `obtainMu` held by exactly the caller between its lock and unlock, no reader beside a writer, and what each phase of a caller claims about the store; no key is lost. |
| ObtainProtocol.RunKeepsInv | acme/manager.go:77-182 | The same over every sequence of steps. |
| ObtainTheorems.MutualExclusion | acme/manager.go:112-179 | In every run at most one caller is inside `obtainMu`, and nobody holds the read lock while one stores. |
| ObtainTheorems.KeysAgreeAndGrow | acme/manager.go:173-179 | In every reachable state both maps have the same keys, and no continuation loses one. |
| ObtainTheorems.NilMeansServed | acme/manager.go:77-108 | If `EnsureDomains` has returned nil to a caller, each of its domains is a key, and its lookup gives the certificate under that very key, then and in every later state of every continuation. |
| ObtainTheorems.WildcardMeansServed | acme/manager.go:57-69 | If such a domain is `*.z`, every name one label below z is served its own certificate if it has one and else that of `*.z`, then and ever after. |
| ObtainFreshness.NilMeansFresh | acme/manager.go:84-132 | Renewal happens: in every run, once `EnsureDomains` has returned nil, the caller has stored a certificate for all its domains, or at its last reading of each of them there was an expiry at least the renewal window away. |
| ObtainTheorems.ClockTellsTime | acme/manager.go:93 | The clock of a run shows the time that has passed and nothing else moves it. |
| ObtainProgress.NoDeadlock | acme/manager.go:77-179 | In every reachable state with a caller that has not returned, some caller can take its own next step, or one is waiting for the answer of the CA, although a waiting writer keeps new readers out; no failure is needed to go on. |
| ObtainProgress.LocksBlock | acme/manager.go:84-179 | A caller does not get past obtainMu while it is held, past the read lock while a writer is in or waits, or past the write lock while a reader or another writer is in. |
| ObtainProgress.EveryoneCanReturn | acme/manager.go:77-179 | From every reachable state some continuation of nothing but the callers' own steps and positive answers of the CA returns every caller. |
| ObtainProgress.CallsAreBounded | acme/manager.go:77-179 | Over every run a call with n domains changes phase at most 3 n + 11 times, so callers cannot keep one another going for ever. |
| ObtainTheorems.RequestsAreJustified | acme/manager.go:117-132 | With any mix of lists: whenever a request starts, some domain of its list is missing or inside the renewal window at that moment. |
| ObtainTheorems.NoPrematureRequest | acme/manager.go:84-132 | Callers sharing one list: once a store has recorded expiry n, no request starts at a time t with n - t at or above the renewal window, in any interleaving. |
| ObtainTheorems.OneObtainPerWindow | acme/manager.go:111-179 | Callers that all saw the domains missing cause one obtain: after a store, another request or store exists only once that store's expiry is inside the window. |
| ObtainHistory.RequestsFollowLastExpiry | acme/manager.go:117-132 | With any mix of lists: every request in the log names a domain that had no expiry at all by then, or whose latest one, brought by a store or loaded from disk, was inside the window. |
| ObtainHistory.RequestAfterStore | acme/manager.go:111-179 | With any mix of lists: a request for domains that an earlier store covers follows a store, that one or a later one, covering one of them with an expiry inside the window at the time. |
| ObtainProvenance.CertificatesKeepTheirExpiry | acme/manager.go:173-179 | In every state of every run the certificate and expiry of a name belong together: both from the start, or both from one CA answer to a waiting caller whose list covers the name. |
| LoneCaller.EveryLoneRunMeetsContract | acme/manager.go:77-182 | Every run of one caller alone, with any clock ticks, CA answers and disk failures between its steps: once it has returned, verdict, log and both maps are those of the contract of `EnsureDomains` for readings of the clock taken during the run and for the answer, refusal or disk failure that the run itself reports; the mutex is free. |
| LoneCaller.LoneRunsReachNothingElse | acme/manager.go:77-182 | If the clock stood still meanwhile, the final state is the contract's state for some attempt, and no other. |
| SequentialObtain.LoneCallMeetsContract | acme/manager.go:77-182 | The companion: for every outcome of the CA and the disk some run of a lone caller reaches the state that the contract of `EnsureDomains` gives. |
| AcmeDomains.CollectDomains | config/config.go:393-408 | The result is strictly increasing and contains exactly the normalised names of the https listeners with TLS and ACME on. |
| AcmeDomains.ListenerAdds | config/config.go:395-401 | A listener adds its normalised names if it is https and has both TLS and ACME switched on, and nothing if it lacks any of the three. |
| AcmeDomains.BeforeMeaning | config/config.go:407 | The order of the list is by the first differing character, a proper prefix first. |
| AcmeDomains.DomainListIsUnique | config/config.go:403-406 | The list is the same for every iteration order of the map and every reordering or repetition of the listeners. |
| AcmeDomains.SortedIsIncreasing | config/config.go:407 | Sorting distinct names gives a strictly increasing list of the same names. |
| AcmeDomains.ConfiguredNamesAreServed | cmd/main.go:74-94 | From configuration to handshake: once `EnsureDomains` has returned nil for the collected list, every name of every ACME listener has a certificate in every later state. |
| Relay.HandleConn | proxy/tcp_proxy.go:150-223 | For every first read, route list and trace: which of the seven outcomes occurs, and what upstream has received in each, a header cut short by its failing write included; a terminated connection still holds the whole client stream, and a finished relay has delivered the header, if one is due, and then the whole stream. |
| Relay.CopyContext | proxy/tcp_proxy.go:346-383 | The loop's result, number of reads, bytes written and bytes left are those of the function `Copy` over the trace. |
| Relay.PrependReaderConn.Read | proxy/tcp_proxy.go:228-235 | Replayed bytes come first and without an error, then the connection's own; no byte is lost or repeated. |
| Relay.ReadSource | proxy/tcp_proxy.go:212-215 | What a read returns and what is left make up what was there, and end of file means nothing is left. |
| Relay.ReadBrings | proxy/tcp_proxy.go:213-215 | A read brings replayed bytes, if any are left, without an error, and else what is ready, in each case as many as there are and fit. |
| Relay.CopyConserves | proxy/tcp_proxy.go:346-383 | Over every trace the bytes written are a prefix of replay plus stream; unless a write failed, nothing read is missing; a nil return means all of it was written. |
| Relay.CopyDelivers | proxy/tcp_proxy.go:346-383 | Bytes move: over events none of which fails or cancels, idle timeouts among them, once as many had bytes ready as there are bytes and the end of the stream is then reported, the copy has returned nil and everything, replay included, is written. |
| Relay.ResultNamesLastEvent | proxy/tcp_proxy.go:357-381 | Nil comes of the end of the stream, an error of a reset or a failed write, cancellation of the context, each at the last event read; a copy over without any of them has read all events. |
| Relay.ResetEndsCopy | proxy/tcp_proxy.go:370-381 | No event is read after one that resets the connection. |
| Relay.WrittenGrows | proxy/tcp_proxy.go:346-383 | What was written by any moment of a trace is a prefix of what is written in the end. |
| Relay.OneReadAfterCancel | proxy/tcp_proxy.go:357-363 | No read follows the one during which the context was cancelled, and none at all happens if it was cancelled before. |
| Relay.IdlingChangesNothing | proxy/tcp_proxy.go:370-375 | Over every trace, removing all timeouts that brought no byte and saw no cancellation changes neither the result nor the bytes written nor those left. |
| Relay.RelayDeliversStream | proxy/tcp_proxy.go:180-216 | What the first read consumed plus what the copy moves is the client's stream from its first byte. |
| Relay.RelayDeliversWhole | proxy/tcp_proxy.go:166-216 | A connection whose bytes all arrive and whose end is reported is relayed completely, whatever the first read took. |
| Relay.RoutedByServerName | proxy/tcp_proxy.go:180-202 | If the first read holds an encoded ClientHello, the connection goes to the first route matching the first name it asks for. |
| Relay.FirstReadRoutes | proxy/tcp_proxy.go:163-202 | In bytes: if the first read brings a whole ClientHello of up to 4096 bytes whose first name is, letter for letter and case aside, a route's host that no earlier route takes, the connection goes to that route. |
| Relay.AsString | proxy/tcp_proxy.go:183-186 | The host is the server name byte for byte. |
| Relay.ShortHelloPanics | proxy/tcp_proxy.go:180-186 | The connection's goroutine panics on exactly the 43-byte handshake reads; a read without a name is routed as an empty host. |
| Relay.OneReadDecides | proxy/tcp_proxy.go:166-202 | A settled first read, in particular one with a name, fixes the route: a longer read would have chosen the same. |
| HostMatching.MatchRouteBySNI | proxy/tcp_proxy.go:464-474 | Returns the first route whose host matches the normalised name, none iff none matches. |
| HostMatching.HostMeaning | proxy/tcp_proxy.go:477-489 | A route takes a host if and only if its own host, normalised, is empty, `*`, that host, or `*.` before a zone the host ends in. |
| HostMatching.FirstMatch | proxy/tcp_proxy.go:464-474 | The index found matches and no earlier route does; none means no route does. |
| HostMatching.SelectRoute | proxy/reverse_proxy.go:170-195 | Returns the earliest route of maximal prefix length among those matching host and path, none iff none match. |
| HostMatching.RequestHostMeaning | proxy/reverse_proxy.go:171-175 | A request for `h:port` is routed like one for h, in any case and with white space around it. |
| HostMatching.AppendedRouteWins | proxy/reverse_proxy.go:179-195 | A route put last wins if and only if it matches host and path and its prefix is longer than that of every other match; a tie goes to the earlier. |
| HostMatching.BestIsUnique | proxy/reverse_proxy.go:179-195 | That description admits one answer only. |
| HostMatching.OrderDoesNotMatter | proxy/reverse_proxy.go:179-195 | Any permutation of the routes finds a route iff the original does, with the same winning prefix. |
| HostMatching.WildcardNameMeaning | acme/manager.go:63-65 | The split and join form of the wildcard key is `*` and everything from the first dot on. |
| HostMatching.WildcardCoversOneLabel | acme/manager.go:63-69 | The wildcard key of a name is that of zone z if and only if the name is one dot-free label in front of z. |
| HostMatching.WildcardRouteMeaning | proxy/tcp_proxy.go:477-489 | A route for `*.z` takes a name if and only if it is `*.z` itself or ends in `.z`. |
| HostMatching.ServedNamesAreRouted | acme/manager.go:63-69 | Every name served through a wildcard key is also matched by a route for that key. |
| DnsProviders.FirstHit | config/config.go:143-153 | The provider found takes the domain and no earlier one does; none means none does. |
| DnsProviders.MatchDomainMeaning | config/dns_match.go:22-40 | For every glob and every pattern and domain: exactly when the pattern takes the domain, in terms of the two normalised strings. |
| DnsProviders.OwnPatternSelects | config/config.go:143-153 | A provider with a pattern that is the domain itself is selected if no earlier one takes the domain. |
| DnsProviders.DefaultSelection | config/config.go:143-153 | No provider gives -1, and a domain nobody takes gives the first. |
| DnsProviders.WildcardOrApex | config/dns_match.go:22-40 | For every glob: a pattern takes `*.z` iff it takes z or takes the wildcard name literally. |
| DnsProviders.WildcardHitIsNotLater | config/config.go:143-153 | For every glob: if a provider is found for z, one is found for `*.z`, and not a later one. |
| DnsProviders.SharedProviderCondition | config/config.go:143-153 | For every glob: z and `*.z` get the same provider if and only if no provider in front of the first with a pattern for z has a pattern that takes `*.z` literally, or none has one for z and the default provider takes `*.z`. |
| DnsProviders.WildcardAndApexShareProvider | config/config.go:143-153 | With patterns that are literals, `*.` before a literal, or `*`, a wildcard and its apex always get the same provider. |
| DnsProviders.SimplePatternAgrees | config/dns_match.go:22-40 | Such a pattern takes z if and only if it takes `*.z`. |
| DnsProviders.SimpleGlobObeysLaws | config/dns_match.go:32 | A glob with `*`, `?` and literals satisfies the three assumptions made about path.Match. |
| DnsProviders.QuestionMarkSeparates | config/config.go:143-153 | A pattern with `?` that takes the wildcard and not the apex, and a provider list on which the two get different providers: the restriction on patterns is needed. |
| TrustedCache.Cache.ParseTrustedEdgeProxyNets | proxy/reverse_proxy.go:31-52 | Answer and cache afterwards, for a hit, a miss and the empty list. |
| TrustedCache.CachedIsUncached | proxy/reverse_proxy.go:31-52 | After any sequence of calls with comma-free strings, every call with comma-free strings is answered as without a cache. |
| TrustedCache.KeyIsInjective | proxy/reverse_proxy.go:36 | Two non-empty comma-free lists have the same key if and only if they are the same list. |
| TrustedCache.CacheRightExactlyWhen | proxy/reverse_proxy.go:31-52 | For any calls, commas or not: the answer is right for every parser if and only if the earliest call with the same key, if any, listed the same strings up to white space. |
| TrustedCache.PlainCacheRightExactlyWhen | proxy/reverse_proxy.go:31-52 | The same for parsers that reject commas, as net.ParseCIDR does: right for all of them if and only if the earliest call with the same key, if any, has the same comma-free strings in the same order up to white space. |
| TrustedCache.CommaBreaksCache | proxy/reverse_proxy.go:36-42 | A list holding a string with a comma poisons the entry of another list. |
| Text.NormalizeIdempotent | acme/manager.go:46 | Normalising a name twice is normalising it once. |
| Text.TrimSpaceMeaning | acme/manager.go:46 | Trimming takes off white space at both ends, all of it, and nothing else. |
| Text.ToLowerMeaning | acme/manager.go:46 | Lower-casing turns A to Z into a to z and leaves every other character. |
| Text.NormalizeMeaning | acme/manager.go:46 | A name with white space around it normalises to the name in lower case. |
| Text.NormalizeIgnoresCase | acme/manager.go:146 | Lower-casing first does not change the normal form. |
| Text.SplitJoin | proxy/reverse_proxy.go:36 | Splitting undoes joining for a non-empty list whose parts are free of the separator. |
| Text.JoinSplit | acme/manager.go:63-65 | Joining undoes splitting. |

## Left out

- Sharing of memory: session id, compression methods and names are copies here, while the parsers return slices of the caller's buffer.
- Encode: the 24-bit handshake length never exceeds 16 bits, because the record that carries the message does not.
- Case folding and white space outside ASCII; names are compared byte by byte.
- RoutedByServerName: a ClientHello cut off by the first read is covered only by the general contract of HandleConn, which then routes as for no name.
- NoPrematureRequest: one shared list of domains, as the boot code and the renewal loop use; with overlapping lists a store for one list may bring forward the expiry of another, and RequestAfterStore says what holds then.
- OneObtainPerWindow: one shared list, for the same reason.
- NilMeansServed: the empty name, which a blank entry of a list stands for, is stored but never looked up by a client, who gets any certificate instead.
- EnsureDomains: the renewal threshold is compared as an integer duration instead of floating-point days.
- StoreBundle: in the protocol one step assigns both maps for one domain, since the write lock hides the moment between the two assignments.
- GetCertificate: in the protocol a reader is a lookup in a reachable state, not a step with its own lock; which certificate an unnamed client gets is not fixed.
- ObtainCertificate: the contents and paths of the files written are not modelled, only that writing may fail before the store and the name the pair is saved under.
- NoDeadlock: says that a step is possible, not that the scheduler, the CA or a lock queue takes it.
- MatchDomain: character classes, escapes and malformed patterns appear only through the arbitrary glob.
- HandleConn: the inbound PROXY header, deadlines, dialling, SOCKS5 and header encoding are inputs or absent, and the direction from upstream to client is the same CopyContext on its own trace.
- TLS termination, the HTTP server behind it, header rewriting, resolveClientIP, path stripping and Shutdown.
- X.509, PEM, key generation, the lego client, DNS challenge routing and user registration.
- The lock around the CIDR cache: its calls are one after another, as the mutex makes them.
- Configuration loading, defaults, validation tags, options and the command line: parsing and plumbing that would only add easy members.
