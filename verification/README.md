# intraweb, verified

A Dafny model of the small peer-to-peer protocol intraweb is built on, and proofs
of what it promises: signed announcements, a cached roster in front of a
trust-on-first-use keyring, store-and-forward mail, and the few algorithms around
them (resumable download, recipient resolution, the listing of shared files, the
decoding of page titles).

`dafny verify dfyconfig.toml` checks the whole project.

## What is modelled

| files | part of the program |
|---|---|
| `bytes`, `utf8`, `hex`, `decimal`, `base64`, `text` | the text encodings both signed records are written in; white space and words |
| `identity`, `presence`, `letter` | keys and signatures, the presence record with its beacon and TXT forms, signed mail |
| `peer`, `registry`, `store` | roster entries, the roster, the keyring and the mail table |
| `node`, `admission`, `liveness` | one event after another: the write-through throttle, what a node believes of others and on whose word, and who stays on the roster |
| `interleaving`, `trust`, `namesakes`, `locks`, `sections` | the same tasks interleaved where they take and drop locks; what the keyring then tells; which shared names are noticed; deadlock freedom |
| `outbox`, `mailnet`, `delivery`, `inbox`, `mailrun` | one outbox pass; mail end to end between any number of nodes; when its marks are true; what is unread; two runs of it |
| `download`, `recipients`, `recency`, `walk`, `enumeration`, `sentlisting`, `capped`, `entities` | the algorithms named above |
| `sorting`, `words`, `wrappers` | filtering and stable sorting; words that commute; results and options |

Objects whose methods update their fields are classes (`PeerRegistry`, `Store`,
`LocalFile`), and loops are loops. Each is proved against a function of the old
state, and the theorems are about those functions, over whole runs. Hash maps
yield their keys, and directories their entries, in an arbitrary order.

Two library functions on text are parameters: `lossy`, which makes a path valid text,
and `lower`, `to_lowercase`. What a theorem needs of them is among its hypotheses
(`Enumeration.KeepsText`, `Recipients.LowersAscii`).

A Rust `String` is modelled by its UTF-8 bytes, so lengths are byte lengths; an
instant is a natural number of seconds. `u16`, `u64`, bytes and the cast of times
to SQLite's signed integers are explicit.

## Assumptions

- Signing is a function of key and message, and a signature it makes is accepted
  (sections 5.1.6 and 5.1.7 of RFC 8032).
- In the mail network, a signature accepted under an honest key was made by that
  key's owner for that message, and no signature met in a run is that of two
  different messages (`MailNetwork.Honest`). This is assumed of the signatures a
  run meets, not of all byte strings, where it would be contradictory.
- A node outside the honest ones may post anything, and any request may be answered by
  another node than the one addressed.
- No directory holds two entries of one name (`Enumeration.DistinctNames`).
- The clock of one node does not run backwards where `Clocked` says so; the
  interleaved model makes no such assumption.
- One process writes each database; no lock is poisoned and no statement fails.
- A server that honours ranges does so as in sections 14.2 and 15.3.7 of RFC 9110.

## Where the program does less than its comments say

The model follows the code. For all but the last of these the exact condition is
proved.

- The keyring's job is to notice a familiar nickname on an unfamiliar key
  (`db.rs:3-4`). It looks only when a key is new to it: a key it holds can take the name
  of another, which is answered Known or Verified (`db.rs:82-98`). Which shared names go
  unreported is `Namesakes.NamesakesAreFlaggedIff` for the write that made two names
  meet and `Namesakes.PairReportedIff` for a whole run; `Namesakes.RenameGoesUnnoticed`
  is a run in which two new keys end as namesakes and nothing is reported.
- A verification is meant to show at once (`registry.rs:68-73`). It can be undone
  on the roster, for up to a minute, by a sighting of that key that had already
  been given its verdict: `Interleaving.VerifiedForGoodIff`, the run of
  `Interleaving.StaleVerdictIsReachable`, and `Interleaving.StaleVerdictHeals`.
- A name held by two keys is meant never to resolve (`mail.rs:4-6`). Addressing
  reads only the 500 most recently seen keys: `Recency.NameResolvesIff` says from the
  rows' times which key such a name can resolve to, `Recency.SharedNameResolves` gives
  keyrings in which it always does.
- A full key is meant to be unambiguous (`mail.rs:46`). One that is not on the list
  is taken for the nickname of a listed peer who uses that text:
  `Recipients.KeyReachesItsOwner`. `Recipients.KeyTextArrivesAsNickname` shows that a
  beacon can bring such a nickname, and `Recipients.KeyTextReachesItsBearer` what follows.
- A listing of shared files is sorted by the path shown (`api.rs:333-339`), and two files
  can be shown under one path. The order in which directories yield their entries then
  decides which stands first, exactly if neither lies in a directory above the other's:
  `Enumeration.ListingUniqueIff`. Whether that shows in the paths and sizes sent is
  `SentListing.SentListingUniqueIff`; `Enumeration.ListingCanVary` gives two listings of
  one tree. Over a thousand files, which of them are listed depends on the order too:
  `Capped.CappedUniqueIff`.
- A download that returns successfully need not be whole, although the run knows the
  length announced: `Download.CompleteIffAllArrived`, `Download.CompleteIffExpected` and
  the runs of `Download.CutOffRunSucceeds`.
- A letter marked delivered should be in its recipient's inbox. While it is not, it is
  marked exactly if the sender took another node's answer for the recipient's:
  `MailNetwork.MailEndToEnd`. `Delivery.MarkIsTrueIff` says of any state when its mark will
  be true in all later ones, given that only the recipient answers from then on, and `MailRun.WrongAnswerIsReachable` is a run in which it is not.
- The best address to reach a peer on (`peer.rs:67-77`) is the first IPv4 address it was
  ever seen at, for as long as it stays listed, and so not where it has moved to:
  `Liveness.DialsFirstSeen`.
- `node.rs:257` says the database lock is never held across the roster lock;
  verification does hold it (`api.rs:127-133`), in the order `Locks` shows to be safe.

## Model

| member | source | states |
|---|---|---|
| Bytes.SplitJoin | crates/intraweb-net/src/presence.rs:196-202 | Splitting at the separator gives back the fields that were joined, for any list of separator-free fields |
| Bytes.JoinInjective | crates/intraweb-net/src/presence.rs:63-81 | Two lists of separator-free fields are never written as the same text, even of different lengths |
| Bytes.LexLeIff | crates/intraweb-net/src/registry.rs:172-177 | The order of names, keys and paths: a prefix first, else the first byte that differs decides |
| Utf8.ValidJoin | crates/intraweb-net/src/presence.rs:184-185 | A joined text is valid UTF-8 exactly when each field is, so no character can straddle a separator |
| Utf8.ValidIff | crates/intraweb-net/src/presence.rs:184-185 | Valid are exactly the texts written in Unicode scalar values (section 3 of RFC 3629) |
| Hex.Encode | crates/intraweb-core/src/hex.rs:4-12 | The pushing loop writes the encoding that DecodesIffEncodes inverts |
| Hex.DecodeArray | crates/intraweb-core/src/hex.rs:15-27 | The in-place loop returns None on a wrong length or digit and otherwise the decoded bytes |
| Hex.DecodesIffEncodes | crates/intraweb-core/src/hex.rs:14-36 | A text decodes to some bytes if and only if, letter case aside, it is their encoding |
| Hex.RoundTrip | crates/intraweb-core/src/hex.rs:3-27 | Every byte string is decoded from its own encoding |
| Hex.ParseKeyIffDecodedArray | crates/intraweb-core/src/identity.rs:39-46 | Parsing a key is decoding exactly 32 bytes |
| Decimal.RoundTrip | crates/intraweb-net/src/presence.rs:105-111 | A number is read back from its decimal form exactly when it is in range, and is an error otherwise |
| Decimal.ParseIsNotCanonical | crates/intraweb-net/src/presence.rs:187-192 | Reading alone accepts a plus sign and leading zeros, which is why the record is re-encoded and compared |
| Decimal.ParseIff | crates/intraweb-net/src/presence.rs:187-192 | A text is read as a number exactly if it is that number's decimal form behind any zeros and at most one plus sign, and the number is in range |
| Base64.DecodesIffEncodes | crates/intraweb-core/src/mail.rs:114-121 | A text decodes to some bytes if and only if it is their one canonical encoding |
| Base64.TestVector | crates/intraweb-core/src/mail.rs:114-121 | The encoding of foobar is that of section 10 of RFC 4648 |
| Identity.FormatFingerprint | crates/intraweb-core/src/identity.rs:53-64 | The loop writes eight digest bytes in hex, hyphenated after every second |
| Identity.HyphenatedIsHex | crates/intraweb-cli/src/mail.rs:58-64 | Without hyphens a fingerprint is plain hex of its bytes |
| Identity.FingerprintLayout | crates/intraweb-core/src/identity.rs:53-64 | A fingerprint is four groups of four hex digits of the digest's first eight bytes, a hyphen between them |
| Presence.SigningTextRoundTrip | crates/intraweb-net/src/presence.rs:69-81 | A record with separator-free names is parsed back from its signed text |
| Presence.SigningBytesInjective | crates/intraweb-net/src/presence.rs:63-81 | No two such records are signed as the same bytes |
| Presence.SigningLayout | crates/intraweb-net/src/presence.rs:69-81 | What is signed, field by field |
| Presence.ToBeacon | crates/intraweb-net/src/presence.rs:138-159 | The buffer ends up as the datagram of BeaconExact, or the same error is returned |
| Presence.BeaconExact | crates/intraweb-net/src/presence.rs:138-159 | A packet is sent exactly with a 64-byte signature and within 1024 bytes: the magic, the length of what is signed in two bytes, that, and the signature |
| Presence.BeaconBijection | crates/intraweb-net/src/presence.rs:138-218 | A packet is accepted as (record, signature) if and only if the names are valid separator-free text and announcing that record with that 64-byte signature produces that very packet |
| Presence.ScrubFixesExactlyCleanNames | crates/intraweb-net/src/presence.rs:222-233 | Scrubbed names are clean, and scrubbing changes exactly the names that are not |
| Presence.ScrubExact | crates/intraweb-net/src/presence.rs:222-233 | A scrubbed name is the first 32 of the name's letters, digits, hyphens and underscores in lower case, or neighbor if it has none |
| Presence.TxtRoundTrip | crates/intraweb-net/src/presence.rs:103-135 | Through TXT properties a record survives except for scrubbing, so unchanged exactly when both names are clean |
| Presence.FromTxtIff | crates/intraweb-net/src/presence.rs:103-124 | Properties are read as a record and signature exactly if the seven that are needed are there and each is read so |
| Presence.NewIsClean | crates/intraweb-net/src/presence.rs:45-61 | Every record a node builds has clean, unambiguous names, whatever it was configured with |
| Presence.BothPathsAgree | crates/intraweb-net/src/presence.rs:45-218 | A built record and any 64-byte signature arrive unchanged over both paths; the beacon never fails and takes at most 252 bytes |
| Presence.VerifyIff | crates/intraweb-net/src/presence.rs:87-100 | A record is taken as genuine exactly if it is of version 2, at most 300 seconds off our clock either way, and its 64-byte signature is good for its own key and text |
| Presence.AnnouncementIsVerifiedIff | crates/intraweb-net/src/presence.rs:83-100 | What a node announces arrives over both paths and is verified by the receiver exactly while their clocks are at most 300 seconds apart |
| Letter.SigningBytesInjective | crates/intraweb-core/src/mail.rs:52-69 | Different mails are signed as different bytes, with any subject and body |
| Letter.SigningLayout | crates/intraweb-core/src/mail.rs:52-69 | What is signed, field by field, subject and body in base64 |
| Letter.DomainsSeparate | crates/intraweb-core/src/mail.rs:22-24 | No mail is signed as the same bytes as any presence record, even one with separators in its names |
| Letter.AcceptIff | crates/intraweb-core/src/mail.rs:90-134 | An envelope is accepted exactly if it is addressed to us, of this version, within limits, and carries canonical base64 of a valid signature of its own signing bytes |
| Letter.SealedIsAccepted | crates/intraweb-core/src/mail.rs:111-134 | Sealing succeeds exactly within the limits, and what is sealed is accepted by its addressee |
| Peers.PreferredAddrExact | crates/intraweb-core/src/peer.rs:69-77 | An address is chosen whenever there is one, and it is IPv4 exactly if any of them is |
| Peers.PreferredIsFirst | crates/intraweb-core/src/peer.rs:69-77 | The address chosen is the first of IPv4, else the first of all |
| Peers.StaleIff | crates/intraweb-core/src/peer.rs:92-94 | Stale is exactly who was last seen more than the timeout ago |
| Registry.PeerRegistry.Cached | crates/intraweb-net/src/registry.rs:55-66 | Answers the cached trust, or None whenever the keyring must be asked |
| Registry.PeerRegistry.ApplyTrust | crates/intraweb-net/src/registry.rs:74-84 | Sets the trust unless a conflict is shown, drops the bookkeeping, touches nothing else, and says whether the peer is listed |
| Registry.SetTrustExact | crates/intraweb-net/src/registry.rs:68-84 | The operator's verdict shows unless a conflict does, and the next sighting of that key, and of no other, asks the keyring again |
| Registry.PeerRegistry.RecordSighting | crates/intraweb-net/src/registry.rs:95-147 | Ignores our own key, inserts or refreshes one entry, with the address loop adding exactly the addresses not held |
| Registry.PeerRegistry.SweepStale | crates/intraweb-net/src/registry.rs:151-166 | Keeps exactly the peers that are not stale, drops the others with their bookkeeping, and returns each of them once |
| Registry.SweepExact | crates/intraweb-net/src/registry.rs:149-166 | Who stays was seen within the timeout, and stays as it was with its bookkeeping |
| Registry.PeerRegistry.Snapshot | crates/intraweb-net/src/registry.rs:170-179 | A sorted list naming every peer exactly once |
| Registry.SnapshotUnique | crates/intraweb-net/src/registry.rs:168-179 | There is only one such list, whatever order the map yields |
| Registry.SortedReads | crates/intraweb-net/src/registry.rs:168-179 | In it hubs come before others, then names in order, then keys |
| Registry.PeerRegistry.Hubs | crates/intraweb-net/src/registry.rs:183-188 | Exactly the leading segment of that one list |
| Registry.HubsLead | crates/intraweb-net/src/registry.rs:170-188 | In sorted order the hubs are a prefix and nothing after it is a hub |
| Store.Store.ObservePeer | crates/intraweb-core/src/db.rs:70-116 | Trust on first use: the verdict on a key before it is written; a new row is unverified and first seen now, a held one keeps its flag |
| Store.ObserveExact | crates/intraweb-core/src/db.rs:70-116 | The one row that changes, field by field, and the verdict case by case |
| Store.Store.SetVerified | crates/intraweb-core/src/db.rs:119-125 | Sets one flag, or changes nothing and says so |
| Store.Store.KnownPeers | crates/intraweb-core/src/db.rs:132-146 | Entries of the keyring, no key twice, most recently seen first; all of them if they fit, else the most recently seen |
| Store.TimesSurviveStorage | crates/intraweb-core/src/db.rs:195 | Every u64 time survives the cast to the signed column and back |
| Store.CastKeepsBits | crates/intraweb-core/src/db.rs:195 | The cast is that of two's complement: in the signed range, and the same modulo 2^64 |
| Store.QueuedIsWaiting | crates/intraweb-core/src/db.rs:186-210 | A queued letter is one more that waits and none more to read |
| Store.Store.QueueOutgoing | crates/intraweb-core/src/db.rs:186-199 | Appends one row with a new id exactly when the letter is within limits |
| Store.PendingIsExact | crates/intraweb-core/src/db.rs:202-210 | The pending list is exactly the undelivered outbox rows, oldest first |
| Store.Store.MarkDelivered | crates/intraweb-core/src/db.rs:212-218 | Rows of that id are stamped, every other row is as before, and the outbox waits for the same letters in the same order without that one |
| Store.DeliveredLeavesPending | crates/intraweb-core/src/db.rs:202-218 | Stamping a row takes it out of the sorted pending list and moves nothing else there |
| Store.DeliveredIsOneRow | crates/intraweb-core/src/db.rs:212-218 | By the increasing ids it is one row that changes, and ids and inbound signatures stay unique |
| Store.Store.StoreIncoming | crates/intraweb-core/src/db.rs:225-240 | Files the letter unless its signature is held, says which, and then there is one more letter to read |
| Store.FiledIsUnread | crates/intraweb-core/src/db.rs:225-266 | A filed row is unread, received now and shows the envelope's sender, subject and body; the unread grow by it alone |
| Store.FilingKeepsUnique | crates/intraweb-core/src/db.rs:362-370 | Filing keeps ids increasing and inbound signatures unique, and filing again changes nothing |
| Store.SecondCopyFiledIff | crates/intraweb-core/src/db.rs:220-240 | A second copy of a letter is filed exactly when its signature differs |
| Store.Store.MarkAllRead | crates/intraweb-core/src/db.rs:278-283 | Afterwards nothing is unread, the count is what was, and every other row is as before |
| Node.Absorb | crates/intraweb-net/src/node.rs:225-288 | Drops own records and all that are not genuine, otherwise takes the node to the state ThrottleRefines is about |
| Admission.SightingShows | crates/intraweb-net/src/node.rs:247-287 | After it the roster shows the record, seen now, with a raised conflict, else the keyring's verdict, or the one shown if the keyring was told under a minute ago |
| Admission.OwnEchoIgnored | crates/intraweb-net/src/node.rs:234-239 | A node's own record, come back, changes nothing |
| Admission.NothingForged | crates/intraweb-net/src/node.rs:220-288 | Over any packets from anybody: what the roster shows of a peer, and the name the keyring holds for a key, are as before or were announced by a genuine record of that very key; so a key that joins either has sent one |
| Node.VerifyPeer | crates/intraweb-cli/src/api.rs:120-142 | Updates keyring and roster together, or neither for an unknown key |
| Node.StepSound | crates/intraweb-net/src/registry.rs:55-147 | Every event keeps the throttle's bookkeeping equal to what the keyring holds |
| Node.ThrottleRefines | crates/intraweb-net/src/registry.rs:23-66 | Over every run with a nondecreasing clock the throttled node gives the same replies as one writing every sighting, and agrees with it in roster, keys, names, flags and first-seen times; trust differs only as New for Known in the first minute, last-seen by less than a minute |
| Node.ThrottleRefinesFromStart | crates/intraweb-net/src/node.rs:247-280 | The same from a fresh roster over any keyring |
| Node.WritesOnlyWhenDue | crates/intraweb-net/src/registry.rs:49-66 | A peer with bookkeeping is written through exactly for a new name or after a minute |
| Liveness.NeverSweptIff | crates/intraweb-net/src/registry.rs:149-166 | In any run a peer never departs if and only if every sweep comes within the timeout of its last sighting |
| Liveness.PresentPeerAccumulates | crates/intraweb-net/src/registry.rs:107-126 | It then keeps its first-seen time, has its last sighting's time and record, every address since, and the join of all sources |
| Liveness.ArrivedPeerAccumulates | crates/intraweb-net/src/registry.rs:95-147 | From its arrival on the roster shows the record it last announced, with arrival time, joined source and accumulated addresses |
| Liveness.AddressesAreFirstOccurrences | crates/intraweb-net/src/registry.rs:120-124 | Its addresses are the first occurrences of all it was seen at, exactly when the list it arrived with had none twice |
| Liveness.RepeatsStay | crates/intraweb-net/src/registry.rs:107-146 | On the roster they hold one twice exactly if that list did, whatever it is seen at later |
| Liveness.DialsFirstSeen | crates/intraweb-core/src/peer.rs:67-77 | A peer that stays listed is dialled at the first IPv4 address of all it was seen at, else the first; that changes exactly from no address to one, or from IPv6 to the first IPv4 |
| Interleaving.InvAlways | crates/intraweb-net/src/node.rs:237-287 | In every reachable state of every interleaving: own key in neither table, listed keys in the keyring, bookkeeping accounted for, keyring only grown |
| Interleaving.InvFromStart | crates/intraweb-net/src/node.rs:99-106 | In particular from the start |
| Interleaving.KeyringOnlyGrows | crates/intraweb-core/src/db.rs:82-125 | No step loses a key, its first-seen time or its verified flag |
| Trust.VerifiedOnlyByVouching | crates/intraweb-core/src/db.rs:82-125 | A key's flag is set in a step exactly if it was set or the operator's verification reaches a keyring that holds the key |
| Trust.VerifiedIffVouched | crates/intraweb-core/src/db.rs:82-125 | So after any run exactly if it was set before or was vouched for in the run |
| Trust.KeyringTellsRun | crates/intraweb-core/src/db.rs:70-116 | After any run the keyring holds a key exactly if it did or the run wrote it, first seen when first written, and with the name and time of the last write |
| Interleaving.MetOnce | crates/intraweb-core/src/db.rs:94-115 | A key is called New or conflicting exactly once in the runs that add it to the keyring, and never in any other |
| Namesakes.NamesakesAreFlaggedIff | crates/intraweb-core/src/db.rs:70-116 | In every run, of any two keys that come to share a name: the write that made them share it, the last time, goes unreported if and only if it was of a key already in the keyring, which it renamed |
| Namesakes.PairReportedIff | crates/intraweb-core/src/db.rs:94-115 | A run that completes a pair of keys reports their sharing a name once if the second joined under the first's name of that moment, and otherwise never, whatever they are called later |
| Namesakes.RenameGoesUnnoticed | crates/intraweb-core/src/db.rs:82-98 | A run from an empty keyring that ends with two namesakes and no conflict verdict about either |
| Interleaving.RecordedConflictShows | crates/intraweb-net/src/registry.rs:115-119 | Once the task holding a conflict verdict records it, the roster shows it |
| Interleaving.ConflictShownUntilSwept | crates/intraweb-net/src/registry.rs:74-119 | And shows it until a sweep removes the peer, whatever is written meanwhile |
| Interleaving.NoFalseAlarm | crates/intraweb-net/src/registry.rs:115-119 | A conflict is shown only if the keyring gave that verdict in the run |
| Interleaving.VerifiedForGoodIff | crates/intraweb-net/src/registry.rs:68-84 | When a verification returns, it shows in every later state if and only if no sighting of that key then holds an older verdict |
| Interleaving.SettledForever | crates/intraweb-net/src/registry.rs:68-84 | Without such a sighting no schedule ever hides it again |
| Interleaving.StaleVerdictSurfaces | crates/intraweb-net/src/node.rs:254-280 | With one there is a schedule that puts the older verdict on the roster |
| Interleaving.StaleVerdictIsReachable | crates/intraweb-net/src/node.rs:257-280 | A run from the start after which the keyring says verified, the roster New, and the cache would serve New again |
| Interleaving.StaleVerdictHeals | crates/intraweb-net/src/registry.rs:49-66 | A minute after the last write the next sighting restores the verification, for good if no older verdict is under way |
| Interleaving.WholeAbsorbIsAtomic | crates/intraweb-net/src/node.rs:247-287 | Run without interruption the locked sections are the atomic step |
| Interleaving.WholeVerifyIsAtomic | crates/intraweb-cli/src/api.rs:127-141 | So are those of a verification, of a known key and of an unknown one |
| Locks.JobsDisciplined | crates/intraweb-cli/src/api.rs:64-292 | Every task, from a sighting to the dashboard's combined request and the terminal's frames, takes the store before the roster if it holds both, takes nothing twice and gives everything back |
| Locks.NoDeadlock | crates/intraweb-net/src/node.rs:249-287 | While any of any number of disciplined tasks is unfinished, one can go on, even with readers giving way to waiting writers |
| Locks.AllJobsFinish | crates/intraweb-net/src/node.rs:43-48 | Every schedule of any list of tasks excludes as locks must, is finite, and if it cannot be continued has finished them all |
| Locks.ReverseOrderDeadlocks | crates/intraweb-net/src/node.rs:257-264 | One task with the opposite order would block a verification for ever |
| Sections.AbsorbTakes | crates/intraweb-net/src/node.rs:247-287 | The locked sections of a sighting are its lock program, whether the keyring is asked or not |
| Sections.VerifyTakes | crates/intraweb-cli/src/api.rs:127-141 | And those of a verification, of a known key and of an unknown one |
| Outbox.FindPeerExact | crates/intraweb-cli/src/mail.rs:116 | The recipient is found exactly if listed, and it is the first peer with that very key |
| Outbox.TryRow | crates/intraweb-cli/src/mail.rs:115-130 | One row gets through exactly if the first peer listed under its recipient's key has an address, the letter is within limits, and that node answers |
| Outbox.InRangeIff | crates/intraweb-cli/src/mail.rs:112-116 | On a roster that is: if a peer with that key is listed with an address |
| Outbox.DeliverPending | crates/intraweb-cli/src/mail.rs:99-145 | Whatever other tasks do to the table between its locks, it ends as they alone would have left it, except that exactly the rows the pass got through are delivered, at the time of their own exchange unless also delivered by others; it returns how many |
| Outbox.AbsentIsLeftAlone | crates/intraweb-cli/src/mail.rs:115-118 | A letter to somebody not listed is left as it is, whoever answers |
| Outbox.LetterOfQueued | crates/intraweb-core/src/db.rs:186-199 | A queued row holds everything of its letter, so resealing signs the same mail |
| Outbox.QueuedIsAccepted | crates/intraweb-core/src/mail.rs:75-134 | Whatever the outbox accepts can be sealed and is accepted by its recipient |
| MailNetwork.InvHolds | crates/intraweb-cli/src/api.rs:161-201 | One inductive invariant of every step of senders, receivers, network and strangers |
| MailNetwork.HeldIsSame | crates/intraweb-core/src/db.rs:220-240 | Answering already held is truthful: the row with that signature is that letter |
| MailNetwork.NothingIsLost | crates/intraweb-core/src/db.rs:183-240 | No run loses or alters a queued or received letter, or takes a delivery back |
| MailNetwork.FiledAtMostOnce | crates/intraweb-core/src/db.rs:220-240 | No two inbox rows are the same letter of an honest sender |
| MailNetwork.InboxIsAuthentic | crates/intraweb-core/src/mail.rs:90-134 | An inbox row naming an honest sender is a letter that sender queued for this node, although its key also signs presence records |
| Inbox.ReadExactlyOnce | crates/intraweb-core/src/db.rs:260-283 | In any run a letter is unread until everything is marked read, and from then on read at the time of the first such mark |
| Inbox.ArrivesUnread | crates/intraweb-core/src/db.rs:225-240 | A letter that is accepted and not held arrives as one unread row, received now |
| Inbox.RefusedChangesNothing | crates/intraweb-core/src/db.rs:225-240 | A letter that is refused, or held already, changes no table |
| MailNetwork.MailEndToEnd | crates/intraweb-cli/src/mail.rs:99-163 | In every reachable state a letter not in its honest recipient's inbox is marked delivered exactly if the sender took another node's answer for it; no letter is there twice, and inboxes are authentic |
| Delivery.MarkIsTrueIff | crates/intraweb-cli/src/mail.rs:126-163 | In any state: while only the recipient answers from then on, the mark of a letter is true in every later state exactly if the letter is filed, or is unmarked and no wrong answer is under way |
| MailNetwork.WrongAnswerMisleads | crates/intraweb-cli/src/mail.rs:148-163 | From any state with an unfiled letter under way, one wrong answer marks it delivered and leaves it unfiled |
| MailRun.WrongAnswerIsReachable | crates/intraweb-cli/src/mail.rs:126-137 | A run from the start that ends with a letter marked delivered which its honest recipient never got |
| MailNetwork.OneExchangeDelivers | crates/intraweb-cli/src/mail.rs:126-137 | One attempt, arrival and answer file a waiting letter and mark it delivered |
| MailRun.TwoLettersArrive | crates/intraweb-cli/src/mail.rs:99-163 | A run from the start, with a sound signature scheme, in which two different letters are filed and marked delivered, so the assumptions can be met |
| Download.LocalFile.ReadHead | crates/intraweb-cli/src/http.rs:160-171 | Reads up to the first CR LF CR LF, or fails for a closed, broken or oversized head |
| Download.StatusReadsCode | crates/intraweb-cli/src/http.rs:218-224 | Of any status line the status is the code in it, if it fits sixteen bits |
| Download.LocalFile.CopyRest | crates/intraweb-cli/src/http.rs:198-209 | In chunks of any size the rest of the stream is appended once and counted, up to a broken connection or a write that fails |
| Download.LocalFile.StreamToFile | crates/intraweb-cli/src/http.rs:136-211 | Leaves on disk and returns what Outcome says, on every success and error path |
| Download.StreamIsSplit | crates/intraweb-cli/src/http.rs:160-209 | On success the stream is the shortest head followed by exactly what was written |
| Download.RefusalLeavesFile | crates/intraweb-cli/src/http.rs:175-177 | Any status outside 200 to 299 is an error and leaves a partial file alone |
| Download.NoAnswerLeavesFile | crates/intraweb-cli/src/http.rs:150-171 | So does an answer that never comes or cannot be read |
| Download.SuccessWrites | crates/intraweb-cli/src/http.rs:175-210 | On success the body is put behind the partial file exactly for a 206, else in its place |
| Download.TroubleIsReported | crates/intraweb-cli/src/http.rs:190-210 | Whatever goes wrong while writing is an error, with what was written so far on disk |
| Download.RunKeepsPrefix | crates/intraweb-cli/src/http.rs:156-210 | A run cut off anywhere leaves a prefix of the remote file, a resuming one never a shorter one, and a returned count is the file's length |
| Download.RunsKeepPrefix | crates/intraweb-cli/src/http.rs:132-135 | So does every sequence of runs |
| Download.CompleteIffAllArrived | crates/intraweb-cli/src/http.rs:198-210 | A successful run has the whole file exactly when the body that arrived is as long as what was still missing |
| Download.CompleteIffExpected | crates/intraweb-cli/src/http.rs:187-210 | From a server that announces the length it sends, exactly when the count returned is the one the run computed and does not compare |
| Download.AnnouncedReadsHeader | crates/intraweb-cli/src/http.rs:187-190 | The first content-length header is the one read, in any letter case and padding, among any lines, if it fits 64 bits |
| Download.CutOffRunSucceeds | crates/intraweb-cli/src/http.rs:198-210 | Cut off in order after any part of any file, with its full length announced, a run succeeds with just that part |
| Download.EnoughRunsComplete | crates/intraweb-cli/src/http.rs:132-135 | Runs that resume and each bring a byte end with the whole file |
| Recipients.ResolveNeverGuesses | crates/intraweb-cli/src/mail.rs:38-78 | On a list of distinct keys one peer is returned exactly if it alone answers by key, else name, else fingerprint; otherwise exactly all who answer are shown, at least two |
| Recipients.AnswersIff | crates/intraweb-cli/src/mail.rs:44-78 | A peer answers by the digits of its key, by its name, or by at least four first digits of its fingerprint, hyphens aside |
| Text.TrimExact | crates/intraweb-cli/src/mail.rs:44 | Trimming removes the white space at both ends and nothing else |
| Text.StartsWithSpaceIff | crates/intraweb-cli/src/mail.rs:44 | White space at the start is exactly a character with the Unicode property White_Space |
| Text.EndsWithSpaceIff | crates/intraweb-cli/src/mail.rs:44 | And so at the end |
| Recipients.Addressable | crates/intraweb-cli/src/mail.rs:170-202 | The live roster followed by the keyring entries not on it |
| Recipients.AddKnownExact | crates/intraweb-cli/src/mail.rs:165-202 | Live peers first and unchanged, keys distinct, every entry listed and nothing else |
| Recipients.KeyringPeerExact | crates/intraweb-cli/src/mail.rs:183-199 | Who comes from the keyring has no address, and is Verified exactly if the operator verified it |
| Recipients.SharedNameNeverResolves | crates/intraweb-cli/src/mail.rs:40-42 | A name two listed keys bear is reported with both, never resolved, unless a listed peer's full key is that very text |
| Recency.AlwaysListedIff | crates/intraweb-cli/src/mail.rs:170-202 | A key of the keyring can be addressed, however rows of one time are ordered, exactly if it is in range or fewer than 500 others were seen no earlier |
| Recency.NeverListedIff | crates/intraweb-cli/src/mail.rs:170-202 | And cannot exactly if it is out of range and at least 500 others were seen later |
| Recency.SmallKeyringIsListed | crates/intraweb-cli/src/mail.rs:175 | A keyring of at most 500 keys is on the list whole |
| Recency.LargeKeyringIsCut | crates/intraweb-cli/src/mail.rs:175 | Of one that holds more than 500 keys that are not in range, some key is missing |
| Recency.NameResolvesIff | crates/intraweb-cli/src/mail.rs:4-6 | A name can be resolved to a key exactly if no other key in range bears it, that key is in range with it or has fewer than 500 keys newer, and 500 keys other than those were seen no earlier than any other that holds it |
| Recency.SharedNameResolves | crates/intraweb-cli/src/mail.rs:175 | In keyrings of any size over 500, a name two keys hold that every listing resolves to one |
| Recipients.KeyReachesItsOwner | crates/intraweb-cli/src/mail.rs:204-233 | A full key reaches its owner exactly if that key is listed or nobody listed is nicknamed by that text |
| Recipients.PaperKeyExact | crates/intraweb-cli/src/mail.rs:204-224 | A key that nobody listed answers to is a peer without address or trust, called by its fingerprint |
| Recipients.OthersAreExplained | crates/intraweb-cli/src/mail.rs:226-254 | Several who answer give no recipient, one is that recipient, and none gives no recipient unless the text is a key |
| Recipients.KeyTextArrivesAsNickname | crates/intraweb-net/src/presence.rs:138-218 | A beacon whose nickname is another key's text is sent, accepted and verified |
| Recipients.KeyTextReachesItsBearer | crates/intraweb-cli/src/mail.rs:204-233 | Listed alone with it, its sender is who that key reaches while the key is not listed |
| Walk.WalkDir | crates/intraweb-cli/src/api.rs:316-337 | One directory's files are listed and its subdirectories put off, so that what was seen, and what is on the stack, are the whole walk; or the cap is met |
| Walk.WalkFiles | crates/intraweb-cli/src/api.rs:308-341 | Terminates with the listing of a recursive description of the walk: sorted and stable, or the first thousand files as met if anything follows them |
| Enumeration.MetIsFileAt | crates/intraweb-cli/src/api.rs:312-337 | The walk meets a file exactly if following its path from the root, and no link, leads to it |
| Enumeration.ListingIsExact | crates/intraweb-cli/src/api.rs:305-341 | A listing holds min(1000, all) files of the tree, none twice; with fewer than 1000, all of them sorted |
| Enumeration.ListingUniqueIff | crates/intraweb-cli/src/api.rs:312-339 | The files come out in the same order however directories are enumerated exactly if of any two shown under one path, one lies in a directory above the other's |
| Enumeration.SettledListing | crates/intraweb-cli/src/api.rs:312-339 | Then, with fewer than a thousand files, the listing sent is the same too |
| SentListing.SentListingUniqueIff | crates/intraweb-cli/src/api.rs:312-339 | With fewer than a thousand files the paths and sizes sent are the same however directories are enumerated exactly if in each directory, under each path, its own files have one size and what any two subdirectories add is the same in either order |
| SentListing.SortedAlikeIff | crates/intraweb-cli/src/api.rs:339 | Two lists sort to the same listing exactly if each path has the same sizes in the same order |
| Words.ForwardPermutes | crates/intraweb-cli/src/api.rs:312-339 | Why: words that commute pairwise give the same text in any order |
| Capped.CappedUniqueIff | crates/intraweb-cli/src/api.rs:305-319 | With more than a thousand files the same ones are listed in the same order exactly if each lies in a directory above all that are met later |
| Capped.CappedListingUniqueIff | crates/intraweb-cli/src/api.rs:305-333 | With plain names that is also exactly when the listing sent is the same |
| Enumeration.PlainNamesSettle | crates/intraweb-cli/src/api.rs:333 | It is so, and different files are shown under different paths, when all names are valid text without slash or backslash |
| Enumeration.ListingCanVary | crates/intraweb-cli/src/api.rs:333-339 | One tree and two enumerations of it whose listings differ: a\b/c beside a/b/c |
| Entities.PassesReadOnce | crates/intraweb-cli/src/surf.rs:180-187 | Replacement passes whose outputs occur in no later name equal one left-to-right decoder |
| Entities.TitleIsReadOnce | crates/intraweb-cli/src/surf.rs:180-187 | The six passes over a title do, on every string |
| Entities.TitleReadsReference | crates/intraweb-cli/src/surf.rs:180-187 | Each of the six references is read as the character it names |
| Entities.OthersStay | crates/intraweb-cli/src/surf.rs:180-187 | Anything that starts none of them is left as it is |
| Entities.AmpersandFirstReadsTwice | crates/intraweb-cli/src/surf.rs:186 | With the ampersand first they would not |

## Left out

- Sockets, mDNS, interface enumeration, HTTP routing, terminal and browser interfaces, configuration, vault files and the installer.
- The internals of Ed25519 and SHA-256.
- SQL, write-ahead logging and migrations; the tables are maps and sequences, ties of `ORDER BY` keep insertion order.
- The `mail send` command, which reads the clock a second time when it seals, so the letter it delivers may differ from the row it marks.
- JSON encoding of mail and the 256 KiB limit on request bodies.
- Hub-visit history, and flagging a conflict again when a swept peer returns: the keyring then answers Known, or Verified.
- Observer commands that open the same database from another process.
- The stored `fingerprint` of a peer, which is always computed from its key and is a function of it here.
- Logging and progress callbacks; of those only the expected length they are told.
- The search for the title tags, the collapse of white space and the cut to 60 characters.
- Download.CompleteIffExpected: the sum of announced and present length is not cut to 64 bits.
- MailNetwork.FiledAtMostOnce: holds for honest senders only, since a sender who signs one letter anew is filed anew, as Store.SecondCopyFiledIff states.
- SentListing.SentListingUniqueIff: a tree of exactly a thousand files, whose listing is sorted or not depending on whether anything follows the last, is not covered.
- Capped.CappedListingUniqueIff: over a thousand files, names that show different files alike are covered as to which files are listed, by Capped.CappedUniqueIff, and not as to the paths and sizes sent.
- Interleaving.InvAlways: the operator's verification from the terminal interface takes the same two locks in the same order and is the same task.
- Locks.AllJobsFinish: a task that stops early, at a busy lock or an empty outbox, is not a job of its own.
