# Verified model of a BACnet device's certificate, codec and controller logic

A Dafny model of the hard parts of a BACnet/SC example device and of its wire-test codec: what must
hold over whole runs, across crashes, and between the encoders and the independent decoders of one format.
`dafny verify dfyconfig.toml` checks all of it.

## What is modelled

**Certificate store and tool** (`Pem`, `CertFiles`, `CertSteps`, `CertRefusal`, `CertRequests`, `CertExamples`,
`CertStore`, `CertTool`, `CertResponses`). Certificate writes are staged in memory over the disk files,
validated as they would be after the commit, written to temporary files and renamed one at a time; then a
pending private key may take the current key's place. `CertSteps` is this as a machine of single durable steps.
Every temporary write, rename and key promotion can fail, a temporary file can be left half written, and a crash
between any two steps loses everything but the disk. `CertStore` and `CertTool` hold the program's own methods,
over the same state, whose contracts give the machine steps they take. Certificates, keys and requests are
strings; what OpenSSL says about them is a set of uninterpreted functions (`Crypto`, `Reader`), with one law: a
PEM block OpenSSL writes is one the store parses. A ghost counter notes every disk operation that fails, so that
a method can only answer false where the program refuses or the disk did.

**CARI zip files** (`CariTree`, `CariZip`, `CariLimits`, `CariEntries`, `CariRoundTrip`, `CariArchives`,
`CariWritten`). Paths, the folder tree, the reader and the writer, over octets. Deflate, inflate and CRC are
uninterpreted, with two laws: inflating undoes deflating, and gives the number of octets asked for.
`CariArchives` lays an archive out octet by octet, as the format says and any program may write it. The order of
`std::map` and the time of day are parameters.

**Codecs** (`Octets`, `Tags`, `ApplicationValues`, `PropertyCodec`, `PropertyErrors`, `PropertyRequests`,
`Frames`, `PeerAcks`). The encoders and decoders of `wiretest/codec.py` and the two C++ decoders of the same
formats, on all octet strings. REALs are 32-bit patterns.

**Peer controller** (`PeerController`, `PeerRuns`, `PeerAnswers`). The polling controller of `main.cpp` as a
class and as a machine of I-Am, poll, received datagram and cold-start events. Times are unbounded; the 32-bit
remainder of a difference is taken where the program takes it.

**Components** (`HubConnector`, `HubRuns`, `HubReports`, `SenderCache`, `SocketPoll`). The WebSocket
connections, the 32-slot sender cache and the round-robin socket poll. libwebsockets is the environment: it
gives each attempt a socket and calls back about any attempt at any time.

## What the code does that its documentation does not say

- `GENERATE_CSR_FILE` checks only that nothing is staged (`sc/cert_store.cpp:581`). After a commit whose key
  promotion failed, the installed certificate is for the pending key, and the call replaces that key. The runs
  therefore carry the condition `Careful`: a new key pair is asked for only while the installed certificate is
  for the current key. `GenerationKeepsHeldExactly` shows that the condition is exact, and `KeyLost` is a run of
  nine steps, from a device in order, that violates it. A validated commit repairs such a device
  (`CommitMakesCurrent`).
- The same call renames the new key before the new request. Stopped in between, the old request stays, and is
  then for a held key only if it was for the current one (`HalfGeneratedRequestExactly`; `RequestLost` is a
  device where it is not). Everywhere else the request stays one for a held key (`RunKeepsRequest`).
- `ApplyStagedCertificates` prints "REFUSED, nothing changed" for every failure, but a failed commit can have
  renamed some or all of the files. It is sure to leave them alone if and only if every file that can already
  be in place was staged as it is on disk: all but the last in order, or all of them if a promotion is due
  (`RefusalQuietExactly`). One staged file and no promotion is the simple case (`LoneFileRefusesQuietly`).
- After a failed promotion nothing is staged, so the next activation answers true without finishing; the next
  start does finish it (`RestartRecovers`).
- A refused `Write` leaves a staged copy of the file behind. What the file would hold after a commit does not
  change, but a missing file then reads as an empty one: exactly then, by `StageKeepsContents`, and
  `MissingFileReadsEmpty` is an instance.
- `cert_tool.cpp`'s `WriteFile` answers true once the file is open, so `ImportCariResponse` can report success
  after a short write. The ghost result `whole` says whether everything got out.
- `ScHubConnector::Connect` has a comment that libwebsockets reports a refused attempt through the callback.
  During the call the connection has no socket, so such a callback counts as stale; and no Error is queued
  when the last queued status is for the same URI. `RefusedAttemptReportedExactly` gives the condition.
- If the stack gave both outstanding reads one invoke id, the RPM fallback could be undone
  (`SharedInvokeIdBreaksFallback`, and exactly when in `RejectSettlesExactly`); the runs assume distinct ids,
  as the stack promises.
- The scan of a ReadPropertyMultiple acknowledgement steps into constructed values. It takes a context [2] value
  or an opening tag [4] inside one for an answer of its own (`NestedAnswerTaken`); without those its findings
  are the right ones (`ReadPropertyMultipleAckFindings`).
- A silence is seen by the 32-bit remainder of its length, so one poll in the whole silence can miss it
  (`WrapHidesSilence`); polls that come far more often cannot (`SilenceIsReported`).
- A cold start puts the power-on value under an unchanged Reliability (`ColdStartForgetsReading`).
- The three tag readers disagree on application BOOLEANs and on the length/value/types 6 and 7 of application
  tags; `ReservedLengthTypesDivide`, `BooleanInPython` and `BooleanInHelper` say exactly where.
- `application_bit_string` is read back for up to 24 bits, and again for 33 to 48;
  `application_character_string` for up to 252 octets.
- `parse_write_property_request` promises None for what is not a request, but lets out a ValueError. It does so
  if and only if the tags it walks over in a WriteProperty request, before the priority is read, bring it to an
  application BOOLEAN of extended length 256 or more (`ParserRaisesExactly`); `ParserRaises` is an input.
- `WriteZip` cuts name lengths to 16 bits and sizes to 32 without saying so: a tree with a longer path is written
  and cannot be read back (`LongNameLost`), and a file whose path ends in a slash becomes a folder.
- `Frame` takes the first two payload octets of a proprietary network message for a vendor identifier, which
  `npdu` does not write.
- `IsStackChosenBroadcast` accepts a network message whose addresses are cut short.

## Model

| member | source | states |
|---|---|---|
| Tags.ReadExtendedLength | main.cpp:2274-2289 | reading octet by octet gives the big-endian length and the position after it, or refuses a cut-short one |
| Tags.ReadTag | main.cpp:2250-2294 | the position loop gives the tag that starts there, with header and content inside the octets, or nothing |
| Tags.HeadTag | main.cpp:2250-2294 | an accepted tag takes at least one octet and ends within the buffer: the measure of both ACK loops |
| Tags.DecodeTagHeader | common/CASExampleHelper.cpp:1313-1371 | an accepted header takes at least one octet and ends within the frame |
| Tags.ReadersAgree | common/CASExampleHelper.cpp:1313-1371 | wherever DecodeTagHeader succeeds on a tag other than an application BOOLEAN whose content fits, ReadTag and read_tag give the same number, class, kind, content and next position |
| Tags.ReservedLengthTypesDivide | main.cpp:2264-2290 | on any tag main.cpp accepts, the other two readers agree with it if and only if it is not an application tag of length/value/type 6 or 7 |
| Tags.BooleanInPython | wiretest/codec.py:586-600 | an application BOOLEAN has no content for main.cpp; read_tag steps over the same octets and gives the value if and only if the length/value/type is not 5 |
| Tags.BooleanInHelper | common/CASExampleHelper.cpp:1340-1368 | DecodeTagHeader agrees with main.cpp on an application BOOLEAN if and only if it is FALSE |
| Tags.HeadTagLocal | main.cpp:2250-2294 | a tag read is the same whatever octets follow it |
| Tags.PythonTagLocal | wiretest/codec.py:574-600 | a tag read_tag reads inside its octets is the same whatever follows |
| Tags.PythonTagWithin | wiretest/codec.py:574-600 | and the other way: a tag that ends inside a prefix is read from the prefix alone |
| Tags.PrimitiveRoundTrip | wiretest/codec.py:240-252 | every primitive tag with the shortest length encoding is read back by main.cpp and by Python alike, whatever follows |
| ApplicationValues.EncodeBitString | wiretest/codec.py:374-381 | setting bits one by one in a zeroed bytearray gives the packed octets, the unused count and the initial octet, or the ValueError |
| ApplicationValues.DecodeBits | wiretest/codec.py:710-715 | the bit loop gives every bit of the octets in order, less the unused ones, with Python's negative slice ends |
| ApplicationValues.BitStringRoundTrip | wiretest/codec.py:374-381 | decode_application gives a bit string back if and only if it has at most 24 bits, or 33 to 48 |
| ApplicationValues.CharacterStringRoundTrip | wiretest/codec.py:289-293 | decode_application gives a text back if and only if it has at most 252 octets |
| ApplicationValues.PrimitivesRoundTrip | wiretest/codec.py:263-286 | Unsigned, Enumerated, REAL, object identifier, BOOLEAN and NULL are decoded as the value encoded |
| ApplicationValues.EveryPrimitiveDecoded | wiretest/codec.py:693-721 | any application-tagged primitive but a BOOLEAN, with any content, is decoded as the type its number says, or raises where the content does not fit |
| ApplicationValues.SignedIsTwosComplement | wiretest/codec.py:703-704 | a Signed is the number of its octets in two's complement |
| ApplicationValues.StatusFlagsAreBits | wiretest/codec.py:384-387 | status_flags is the four-bit bit string that the controller's answers carry |
| PropertyCodec.UnsignedOctets | wiretest/codec.py:233-237 | one to four octets, no leading zero octet, whose number is the value |
| PropertyCodec.FindEnd | wiretest/codec.py:620-630 | the depth loop stops at the tag that closes the value, or raises, exactly as the nesting says |
| PropertyCodec.ReadPropertyValue | wiretest/codec.py:614-631 | the position loop returns the octets between the first context [3] tag and its closing tag, None or an exception |
| PropertyCodec.ParseWritePropertyRequest | wiretest/codec.py:752-785 | one position over the APDU gives object, property, optional index, value and optional priority; None for a cut-short or other APDU; or the ValueError it does not catch |
| PropertyCodec.ParserRaises | wiretest/codec.py:752-785 | a BOOLEAN of extended length 256 in place of the object identifier gets the ValueError out |
| PropertyErrors.ParserRaisesExactly | wiretest/codec.py:752-786 | the ValueError comes out if and only if the APDU is a WriteProperty request and, on the walk over its tags, with a four-octet first tag and before the value is closed and the priority read, there is a whole application BOOLEAN header of extended length 256 or more |
| PropertyErrors.RaisingWalk | wiretest/codec.py:769-786 | a scan of the value or priority that raises has walked over readable tags, none closing the value too early, to that header |
| PropertyErrors.WalkRaises | wiretest/codec.py:769-786 | and every such walk makes it raise |
| PropertyRequests.RequestExactly | wiretest/codec.py:752-786 | any APDU is taken for a request, and for which, if and only if its tags say so one by one: object identifier, property, optional index, a tag, a value up to the tag that closes it, and one tag of priority if anything is left |
| PropertyRequests.ValueFoundExactly | wiretest/codec.py:614-631 | from any octets the value returned is what the first context opening tag [3] encloses, and there is one only if that tag is reached |
| PropertyCodec.EnclosedExactlyBalanced | wiretest/codec.py:622-630 | the scan of a value followed by a closing tag stops right after the value if and only if the value is a balanced sequence of whole tags |
| PropertyCodec.ReadPropertyAckRoundTrip | wiretest/codec.py:330-333 | read_property_value of read_property_ack returns the value if and only if it is balanced, however nested |
| PropertyCodec.WritePropertyRoundTrip | wiretest/codec.py:308-318 | the parser returns the request's object, property, index, value and priority if and only if the value is balanced |
| PropertyCodec.EncodedValuesBalanced | wiretest/codec.py:255-286 | every tree of primitives and constructed values encodes to a balanced sequence |
| Frames.HeaderRoundTrip | wiretest/codec.py:204-226 | the header of every encoded NPDU parses back to its addresses, at its exact size |
| Frames.Frame.constructor | wiretest/codec.py:456-470 | a frame's fields are what its datagram holds, for any datagram: of a header cut short, the addresses and type it got to |
| Frames.Frame.Decode | wiretest/codec.py:472-508 | BVLC function, data and result, and the NPDU of the functions that carry one, or the exception raised |
| Frames.Frame.DecodeNpdu | wiretest/codec.py:487-508 | every NPDU field is set from the octets where the header puts it; where the parse raises, the fields set before that, and it raises exactly when a specifier or the message type is missing |
| Frames.Frame.WholeHeader | wiretest/codec.py:487-508 | with a whole header those fields are the addresses the checking parser of the header gives |
| Frames.Frame.RecoversFields | wiretest/codec.py:479-508 | a datagram that carries an encoded NPDU is described by exactly that NPDU's fields |
| Frames.FrameRoundTrip | wiretest/codec.py:472-508 | Frame(bvll(function, npdu(...))) carries an NPDU if and only if the function is Distribute-Broadcast, Original-Unicast or Original-Broadcast, and then has every field it keeps, the payload if and only if it is no proprietary network message or is empty; for any other but Forwarded-NPDU the octets stay BVLL data |
| Frames.ForwardedRoundTrip | wiretest/codec.py:171-173 | Frame(forwarded_npdu(...)) has the originating address and the same fields |
| Frames.DecodeBacnetFrame | common/CASExampleHelper.cpp:1473-1548 | the struct describes the header parsed from any datagram, whole or cut short |
| Frames.DecodeNpduHeader | common/CASExampleHelper.cpp:1505-1548 | addresses, network-message type and PDU type are those of the header; of one cut short, each address as far as it was read, and neither type |
| Frames.HelperRoundTrip | common/CASExampleHelper.cpp:1473-1548 | DecodeBacnetFrame recovers the addressing of every encoded frame and what follows the header |
| Frames.LooseOffsetExact | main.cpp:2611-2628 | the walk that does not check that addresses fit stays inside if and only if the whole header is there, and then ends where the header does |
| Frames.FindReplyApdu | main.cpp:2402-2443 | the position walk of HandleReplyFromPeer gives the APDU after a whole header, for BACnet/IP and BACnet/IPv6 |
| Frames.IsStackChosenBroadcast | common/CASExampleHelper.cpp:249-281 | accepts exactly network messages and I-Am or I-Have APDUs at the walked offset, and never indexes outside |
| Frames.ApduFoundAtOneOffset | main.cpp:2603-2632 | for every encoded frame of any BVLC function, HandleReplyFromPeer finds the APDU where the codec put it, in a unicast only; IsStackChosenBroadcast accepts it if and only if it is a unicast or broadcast with a network message or with unconfirmed service 0 or 1 |
| Frames.ChosenWithoutHeader | main.cpp:2603-2632 | a network message with missing addresses is accepted though no header can be parsed |
| PeerAcks.ReadPropertyAckReading | main.cpp:2325-2346 | from read_property_ack of any value octets the controller takes the REAL that heads the value, if it is one; a value whose first tag is cut short is read on into the closing tag |
| PeerAcks.ReadPropertyMultipleAckFindings | main.cpp:2350-2390 | for any list of objects and properties with errors or values, constructed ones included, that have no context [2] value or opening tag [4] inside, in any order, the scan finds exactly the last Present_Value REAL and the last Status_Flags FAULT bit |
| PeerAcks.NestedAnswerTaken | main.cpp:2350-2390 | a property and value inside a constructed value of another property are taken for a Present_Value |
| PeerAcks.RealValue | wiretest/codec.py:281-282 | a REAL is a primitive value whose bits the controller reads back |
| PeerAcks.StatusFlagsValue | wiretest/codec.py:384-387 | the flags are a primitive value whose FAULT bit the controller reads back |
| PeerController.Controller.HookIAm | main.cpp:2136-2173 | binds, or re-binds, to the peer's address and starts the clocks; any other I-Am changes nothing |
| PeerController.Controller.PollPeer | main.cpp:2191-2237 | declares the loss, paces the attempts, alternates the services and notes the invoke id, as the transition says |
| PeerController.Controller.SendRead | main.cpp:2209-2237 | one attempt: the service whose turn it is, and its invoke id noted as pending if the stack sent it |
| PeerController.Controller.HandleReadPropertyAck | main.cpp:2325-2346 | takes the reading unless a sensor fault holds the value |
| PeerController.Controller.HandleReadPropertyMultipleAck | main.cpp:2350-2390 | with both findings, reports the fault or takes the reading; else nothing |
| PeerController.Controller.HandleReplyFromPeer | main.cpp:2395-2492 | a datagram changes the state only when it is from the bound peer and holds an APDU |
| PeerController.Controller.HandleApdu | main.cpp:2444-2492 | matching, counting the answer, the fallback on a Reject, and the two acknowledgements |
| PeerController.Controller.SetDiamondReliability | main.cpp:2109-2119 | Reliability becomes the one given |
| PeerController.Controller.UpdateDiamondFromPeer | main.cpp:2123-2131 | the value becomes the reading unless they compare equal as REALs |
| PeerController.Controller.ColdStart | main.cpp:3697-3706 | only the value goes back to power-on |
| PeerAnswers.StrangerChangesNothing | main.cpp:2395-2400 | a datagram changes the state only if it is from the address and port in the peer's connection string |
| PeerAnswers.StrangersMakeNoDifference | main.cpp:2395-2400 | every run ends the same without the datagrams of others than the peer of their time |
| PeerAnswers.CarriedIsHeard | main.cpp:2402-2443 | an encoded NPDU of the peer, over IPv4 or IPv6, with any addresses, is heard |
| PeerAnswers.AnswerSettles | main.cpp:2444-2458 | any APDU of the peer settles the read whose invoke id it has, and under another id changes nothing |
| PeerAnswers.ReadPropertyAnswerShown | main.cpp:2325-2346 | a ReadProperty-ACK of Present_Value with a REAL shows in Diamond and makes it no-fault-detected, unless a sensor fault holds the value |
| PeerAnswers.MultipleAnswerShown | main.cpp:2350-2390 | a ReadPropertyMultiple-ACK with both findings reports the fault and holds the value, or shows the REAL and makes Diamond no-fault-detected; with one missing only the read is settled |
| PeerAnswers.OtherAnswers | main.cpp:2459-2485 | an Error, Reject, Abort or segmented ACK holds the value and makes Diamond unreliable, but an unrecognized-service Reject of the ReadPropertyMultiple only ends its use |
| PeerAnswers.BoundToLatestAddress | main.cpp:2136-2173 | in every run the controller is bound to the address the peer announced last, from its first I-Am on |
| PeerAnswers.ReadsTakeTurns | main.cpp:2209-2237 | in every run the two reads take turns, without ReadPropertyMultiple it is always the ReadProperty, and a read sent is outstanding under its id |
| PeerAnswers.AttemptExactly | main.cpp:2195-2209 | a read is tried if and only if the peer is bound and the 32-bit remainder of the time since the last try is 1000 ms, or 3000 ms after a loss |
| PeerAnswers.BindingIsPolled | main.cpp:2168-2172 | once the peer is bound, the next poll reads it at once |
| PeerAnswers.AttemptsKeepComing | main.cpp:2205-2209 | after a try the next is made by the first poll 3000 ms later, at the latest, if one comes before the clock wraps |
| PeerRuns.RunKeepsSound | main.cpp:2191-2237 | in every run with distinct invoke ids, a reported sensor fault means a Reliability other than no-fault-detected, and an unsupported RPM leaves no RPM pending and no fault reported |
| PeerRuns.SharedInvokeIdBreaksFallback | main.cpp:2446-2477 | with one invoke id for both reads, a Reject followed by an acknowledgement reports a sensor fault while ReadPropertyMultiple counts as unsupported |
| PeerRuns.RejectSettlesExactly | main.cpp:2453-2477 | a Reject of the RPM leaves it outstanding if and only if the ReadProperty is outstanding under the same id |
| PeerRuns.FallbackHolds | main.cpp:2463-2477 | after an unrecognized-service Reject no RPM is sent and no sensor fault is reported until the peer's address changes |
| PeerRuns.FaultHoldsValue | main.cpp:2325-2346 | while a fault is reported no answer to the ReadProperty changes the value or makes Reliability no-fault-detected |
| PeerRuns.DiamondShowsLatestReading | main.cpp:2123-2131 | in every run Diamond shows the reading of the most recent accepted acknowledgement |
| PeerRuns.ColdStartForgetsReading | main.cpp:3697-3706 | a cold start drops the reading and keeps no-fault-detected |
| PeerRuns.PollDetectsSilence | main.cpp:2195-2204 | PollPeer declares the loss if and only if the 32-bit remainder of the silence is over 3000 ms |
| PeerRuns.WrapHidesSilence | main.cpp:2093-2096 | a longer silence can go unnoticed by one call |
| PeerRuns.SilenceIsReported | main.cpp:2195-2204 | with polls often enough, more than 3000 ms of silence means communication-failure at every return of PollPeer |
| PeerRuns.RecoveryNeedsAnswer | main.cpp:2446-2458 | communication-failure is left only in a step that consumed a matching answer |
| PeerRuns.AttemptsApart | main.cpp:2205-2209 | two attempts to send are at least 1000 ms apart, 3000 ms while the peer counts as lost |
| Pem.NextBlock | sc/cert_store.cpp:122-156 | searching the whole text from a position is searching the rest of it |
| Pem.SplitPemBlocks | sc/cert_store.cpp:118-159 | the scan terminates with the blocks, or the first problem, of the text |
| Pem.SplitHasShape | sc/cert_store.cpp:118-159 | what is split is whitespace, block, whitespace, ..., block, whitespace |
| Pem.ShapeSplits | sc/cert_store.cpp:118-159 | every text of that shape splits back into its blocks |
| Pem.SplitExactly | sc/cert_store.cpp:118-159 | a text splits into given blocks if and only if it has that shape, for labels whose first dashes are the closing ones |
| Pem.DashFreeLabelIsPlain | sc/cert_store.cpp:118-159 | a label without a dash is such a label |
| CertFiles.StageKeepsContents | sc/cert_store.cpp:89-103 | staging a file, as a refused write does, changes no File object's contents after a commit; a read changes, to empty, if and only if it was missing and is of that file or falls back to it |
| CertFiles.ReadExactly | sc/cert_store.cpp:67-82 | a File object reads as its staged copy, else its file, else the same of the object it falls back to |
| CertFiles.PiecesAreWritten | sc/cert_store.cpp:377-406 | a text written in any pieces one after the other, from any position, is in the file whole if and only if it fits; appended, the file reads as what was there and then the text |
| CertFiles.ParsesExactly | sc/cert_store.cpp:163-188 | a file holds given certificates if and only if it is those PEM blocks with only space around them and OpenSSL reads each |
| CertFiles.IssuersExactly | sc/cert_store.cpp:427-441 | the issuers in effect are the certificates in all issuer files and no others, or a file does not parse |
| CertFiles.ChainsExactly | sc/cert_store.cpp:197-230 | a chain verifies if and only if it does against one issuer alone or all together |
| CertFiles.ActivatableExactly | sc/cert_store.cpp:426-504 | a stage can be put in use if and only if its certificate is for a key of the device, is no CA's, and verifies for both TLS roles against issuers in effect |
| CertExamples.MissingFileReadsEmpty | sc/cert_store.cpp:89-103 | an instance: the missing request file, once staged, reads as empty |
| CertFiles.InstalledIsOperational | sc/cert_store.cpp:232-239 | with nothing staged, what would be in effect is what is installed |
| CertFiles.CommittedStaysActivatable | sc/cert_store.cpp:426-504 | a stage accepted and put in place would be accepted again |
| CertFiles.SameReadsSameCertificates | sc/cert_store.cpp:163-188 | stores that read alike hold the same issuers |
| CertSteps.StepKeepsSafe | sc/cert_store.cpp:426-573 | every durable step, failing or not, crash and start included, keeps the invariant over disk, stage and flag |
| CertSteps.RunKeepsSafe | sc/cert_store.cpp:506-538 | in every run the installed certificate is for a key the device still holds |
| CertSteps.RestartRecovers | sc/cert_store.cpp:540-573 | after any run, a crash and a start whose reconcile succeeds, it is for the current key |
| CertSteps.CommitStarts | sc/cert_store.cpp:506-510 | a commit from a validated stage starts on course, whatever is installed |
| CertSteps.CommitStep | sc/cert_store.cpp:506-538 | one step of a commit keeps what every File object reads, fallbacks included, and its course: validated, then awaiting the promotion, then current; a held certificate stays held |
| CertSteps.CommitRun | sc/cert_store.cpp:506-538 | so does any number of them, wherever one fails; done, every staged file is in place |
| CertSteps.CommitMakesCurrent | sc/cert_store.cpp:506-538 | a validated commit that gets done leaves a certificate for the current key, even if the one before was for no held key |
| CertSteps.PreparingStep | sc/cert_store.cpp:258-289 | a temporary write touches no managed file, and what is written is what was staged |
| CertSteps.ReplacingStep | sc/cert_store.cpp:291-315 | one rename leaves the certificate for a held key and every read as it was |
| CertSteps.PromotingStep | sc/cert_store.cpp:317-331 | a promotion, done or failed, keeps the certificate for a held key |
| CertSteps.PromotedFacts | sc/cert_store.cpp:317-331 | promoting the key a certificate is for makes that certificate current |
| CertSteps.StartFacts | sc/cert_store.cpp:540-573 | a start keeps the certificate held, and a successful reconcile makes it current |
| CertSteps.FailedPromotion | sc/cert_store.cpp:526-536 | a failed promotion leaves nothing staged and the certificate for the pending key and not for the current one |
| CertSteps.GenerationKeepsHeldExactly | sc/cert_store.cpp:580-649 | once a new key is in place, the certificate is still usable if and only if it was for the current key |
| CertSteps.NewKeyAfterFailedPromotion | sc/cert_store.cpp:580-649 | after a failed promotion a new key pair is not refused, and leaves no key on the device that fits the certificate |
| CertRefusal.RefusalQuietExactly | sc/cert_store.cpp:506-538 | every commit that fails, in every run of its steps, leaves every managed file as it was if and only if each file it can have put in place (all but the last, or all if a promotion is due) was staged as it is on disk |
| CertRefusal.QuietRun | sc/cert_store.cpp:506-538 | under that condition the files are as they were at every point from which the commit can still fail |
| CertRefusal.PlacedAndRefused | sc/cert_store.cpp:521-536 | for each of those files there is a run that puts it in place and then fails |
| CertExamples.KeyLost | sc/cert_store.cpp:506-649 | a concrete device in order gets there: write, activate, temporary file, rename, failed promotion, new key pair |
| CertRequests.StepKeepsRequest | sc/cert_store.cpp:506-649 | every step but a stop between the two renames of GENERATE_CSR_FILE keeps the request one for the pending key, or the current one if there is none |
| CertRequests.RunKeepsRequest | sc/cert_store.cpp:506-649 | in every run of such steps the request on disk is for a held key outside that window |
| CertRequests.HalfGeneratedRequestExactly | sc/cert_store.cpp:643-648 | between the two renames the old request is for a held key if and only if it was for the current one |
| CertExamples.RequestLost | sc/cert_store.cpp:643-648 | a device in order with a request for its pending key, where a second GENERATE_CSR_FILE stopped there leaves a request for a key that is gone |
| CertSteps.KeyGeneratedFacts | sc/cert_store.cpp:633-647 | up to the replaced pending key nothing but that key changes |
| CertStore.CertStore.StageFile | sc/cert_store.cpp:89-103 | the staged copy is what the File object read |
| CertStore.CertStore.Write | sc/cert_store.cpp:377-406 | AtomicWriteFile, octet by octet: the data from the start on, elsewhere what was there; or the error; and the stage either leaves |
| CertStore.CertStore.Resize | sc/cert_store.cpp:408-420 | the staged copy cut or filled with zero octets to the new size |
| CertStore.CertStore.DiscardStaged | sc/cert_store.cpp:575-578 | nothing staged and no promotion due; the disk as it was |
| CertStore.CertStore.WriteTempFile | sc/cert_store.cpp:258-289 | the whole temporary file, or none |
| CertStore.CertStore.ReplaceWithTemp | sc/cert_store.cpp:291-315 | the file replaced by its temporary one, or the disk as it was |
| CertStore.CertStore.PromotePendingKey | sc/cert_store.cpp:317-331 | the pending key moved over the current one, or the disk as it was |
| CertStore.CertStore.VerifyChain | sc/cert_store.cpp:197-230 | tries every issuer alone, then all together: true if and only if OpenSSL verifies the chain against one of them or all |
| CertStore.CertStore.CollectIssuers | sc/cert_store.cpp:427-441 | every issuer in effect, in slot order, or a refusal |
| CertStore.CertStore.ValidateStaged | sc/cert_store.cpp:426-504 | accepts a stage if and only if its certificate is for a key of the device, no CA's, and verified for TLS server and client against issuers in effect; and sets the flag that says whether a key must be promoted |
| CertStore.CertStore.PrepareTemps | sc/cert_store.cpp:507-520 | all temporary files hold the staged contents, or none is left |
| CertStore.CertStore.ReplaceFiles | sc/cert_store.cpp:521-526 | the machine's renames in order, up to one that fails |
| CertStore.CertStore.CommitStaged | sc/cert_store.cpp:506-538 | is a run of commit steps; never changes what any File object reads; true if and only if no disk operation failed, and then nothing staged, every staged file in place and, for a validated stage, a certificate for the current key; false, under the condition of `RefusesQuietly`, means every managed file as it was |
| CertStore.CertStore.ReconcilePendingKey | sc/cert_store.cpp:540-573 | promotes the pending key if and only if it, and not the current one, is the installed certificate's; that stays held and becomes current unless the disk fails |
| CertStore.CertStore.WriteKeyAndRequest | sc/cert_store.cpp:633-642 | as steps of the machine, both new files are flushed next to the old ones, or neither is used; no managed file changes |
| CertStore.CertStore.ReplaceKeyAndRequest | sc/cert_store.cpp:643-648 | the key, then the request, renamed into place as machine steps; on failure the pending key is the old one or the new one and the request the old one; nothing else changes |
| CertStore.CertStore.GenerateKeyAndCsr | sc/cert_store.cpp:580-649 | succeeds if and only if nothing is staged, there are a request file, a pending key path and an operational certificate, and no disk operation failed; refused before any step, it leaves the disk as it was; else it is the machine's request for the key made, then writes and renames: success puts both files in place, failure leaves the request and the old pending key or the made one; no other managed file changes, and a certificate for the current key stays held |
| CertStore.ApplyStagedCertificates | sc/ScNode.cpp:465-481 | whatever was installed: a stage is applied if and only if it is acceptable and no disk operation failed, and one unverified for either TLS role leaves disk and stage as they were; reads are unchanged, a held certificate stays held, and true for a stage means it is in place, is current and would be accepted again; false for one staged file and no promotion means every managed file and the stage as they were |
| CertTool.NodeFilesAreNodeLayout | sc/ScNode.cpp:182-197 | the node's certificate files, keys and temporary files never coincide |
| CertTool.ChooseFiles | sc/cert_tool.cpp:297-414 | a selection is made if and only if the response is installable, and is the first certificate for the key with its signer rotated to the front |
| CertTool.CollectCandidates | sc/cert_tool.cpp:315-330 | the device's own file, then every other opr- file in path order |
| CertTool.CollectIssuers | sc/cert_tool.cpp:350-368 | every iss- file's certificate in path order, none if one is no CA |
| CertTool.OwnFileFirst | sc/cert_tool.cpp:315-340 | the device's own file wins over any other for the same key |
| CertTool.FirstIsForKey | sc/cert_tool.cpp:331-344 | whatever is chosen is a certificate for the request's key |
| CertResponses.ResponseTakenExactly | sc/cert_tool.cpp:297-414 | a response is taken if and only if there is an unexpired certificate for the key where one is looked for, every issuer file is a CA certificate, there are at most two, and one of them signed it |
| CertResponses.SourceExactly | sc/cert_tool.cpp:315-344 | the certificate is that of the device's own file if it is for the key, else of the first opr- file in path order that is |
| CertResponses.IssuersOfExactly | sc/cert_tool.cpp:350-368 | the issuers are the certificates of the iss- files under cert1/issuer/, one each, in path order |
| CertResponses.TakenFromSource | sc/cert_tool.cpp:331-414 | what is taken is the source's certificate and those issuers, a signer first, and the first file if it is one |
| CertTool.Node.WriteFile | sc/cert_tool.cpp:195-215 | true means the file was opened; any prefix may have been written |
| CertTool.Node.MakeKeyAndRequest | sc/cert_tool.cpp:446-468 | touches only the key and the request; they are on disk, and fit each other, if and only if every octet was written |
| CertTool.Node.EnsureRequest | sc/cert_tool.cpp:436-472 | makes a key and a request only when there is neither, nor a pending key; otherwise changes nothing |
| CertTool.Node.EnsureNodeRequest | sc/cert_tool.cpp:420-485 | answers that the zip is there if and only if it is, and then changes nothing; makes it if and only if there is a request, or no key at all and a pair could be made, and every file could be opened; never changes an existing key or file, and keeps the request one for the current or the pending key, unless a write it made stopped short |
| CertTool.Node.InstallFiles | sc/cert_tool.cpp:505-514 | both keys untouched; true if and only if every file could be opened, and then the three files are in place if and only if every octet was written |
| CertTool.Node.InstallIssuers | sc/cert_tool.cpp:507-514 | writes the two issuer files and no other, a single issuer into both; in place if and only if every octet was written |
| CertTool.Node.ImportCariResponse | sc/cert_tool.cpp:488-529 | selects if and only if the request is there and the response installable; both keys untouched; nothing chosen means the disk as it was; true if and only if something was chosen and every file could be opened, and then in place if and only if every octet was written |
| CertTool.StartAfterImport | sc/ScNode.cpp:198-209 | after a completed import and a start, the certificate is for the current key, slot 1 signed it, and the issuers are those of the response and no others |
| CertTool.ImportThenStart | sc/cert_tool.cpp:488-529 | the two methods run one after the other reach that state, with what the response gives for the key of the old request |
| CariTree.Split | sc/cari.cpp:100-108 | std::getline's parts; nothing follows a slash at the end |
| CariTree.IsSafeZipPath | sc/cari.cpp:80-98 | the loop decides safety as the parts say |
| CariTree.SafeIsConfined | sc/cari.cpp:78-98 | a path is safe if and only if it is relative, has no empty, "." or ".." part between slashes, and no backslash, colon or control octet |
| CariTree.Tree.AddFolder | sc/cari.cpp:148-154 | inserts the partial paths and nothing else |
| CariTree.Tree.AddFile | sc/cari.cpp:156-162 | stores the octets and inserts the folders of the path before its last slash |
| CariTree.Tree.Remove | sc/cari.cpp:164-166 | drops that file and nothing else |
| CariTree.FoldersAreCuts | sc/cari.cpp:148-154 | joining the parts of a safe path inserts exactly its prefixes that end before a slash or at the end |
| CariTree.FoldersClosed | sc/cari.cpp:148-154 | the folders inserted are safe and have all their parents |
| CariTree.FileFoldersExactly | sc/cari.cpp:156-162 | the folders inserted for a file are exactly its parents |
| CariTree.AddFolderKeepsClosed | sc/cari.cpp:148-154 | a tree closed under parents stays so, and gets the folder |
| CariTree.AddFileKeepsClosed | sc/cari.cpp:156-162 | a tree closed under parents stays so |
| CariTree.ClosedIsItsClosure | sc/cari.h:47-58 | a closed tree is its own closure |
| CariTree.BuiltIsClosed | sc/cari.h:50-58 | every tree built with AddFolder, AddFile and Remove on safe paths is closed |
| CariZip.LastEndRecord | sc/cari.cpp:194-206 | the last signature in the range searched, and none after it |
| CariZip.FindEndRecord | sc/cari.cpp:185-206 | the backward search over the last 65557 octets, after the size and signature checks, in bounds |
| CariZip.ReadContent | sc/cari.cpp:275-299 | the octets the local header leads to, stored or inflated, or what is wrong with them |
| CariZip.ReadEntry | sc/cari.cpp:245-304 | the checks in order, and the folder or file added |
| CariZip.ReadZip | sc/cari.cpp:183-307 | terminates on any octets, all fields and slices in bounds, with the tree and error of the entries one by one |
| CariArchives.ArchiveRead | sc/cari.cpp:183-307 | any archive laid out as APPNOTE says, whoever wrote it, is taken if and only if it has at most 4 MiB, 4096 entries and 16 MiB of content, nothing is encrypted, every path is safe and no two files share one; then the tree holds the members' contents and folders, and no more |
| CariArchives.AcceptedEndRecord | sc/cari.cpp:183-221 | whatever the octets, what is accepted begins with a local header and has its end record in the last 65557 octets, the last signature there, of a zip in one part, with at most 4096 entries and the directory before it |
| CariArchives.PackedIsArchive | sc/cari.cpp:194-221 | headers and data one after the other, directory, end record and comment are such an archive, for any flags, extra fields and comments but one that holds an end signature |
| CariArchives.RecordRead | sc/cari.cpp:225-243 | the fields and the name of a directory entry are read from where the format puts them |
| CariArchives.BodyRead | sc/cari.cpp:275-283 | a member's data is read from after the local header's own name and extra field |
| CariLimits.AcceptedIsWithinLimits | sc/cari.cpp:183-307 | whatever the octets, an accepted tree has only safe paths and folders closed under parents, comes from at most 4096 entries, files and folders together, and holds at most 16 MiB; each content has its entry's size and CRC, and every folder is on the way to an entry |
| CariLimits.HeaderKeepsLimits | sc/cari.cpp:245-304 | one more entry keeps all of that |
| CariLimits.ContentMatches | sc/cari.cpp:275-299 | accepted octets are the entry's data with its size and CRC |
| CariZip.WriteEntry | sc/cari.cpp:337-376 | appends the local header, name and body, and the directory entry with the offset |
| CariZip.ListEntries | sc/cari.cpp:312-322 | folders with a slash, then files, none with an empty name |
| CariZip.WriteZip | sc/cari.cpp:309-388 | the local parts, the directory and the end record, with 16- and 32-bit fields cut as the program cuts them |
| CariWritten.WrittenIsPacked | sc/cari.cpp:309-388 | the octets written, up to 4 MiB, are the plain archive of the entries with every field named: version 2.0, UTF-8 flag, method, time, sizes, CRC, folder attribute, offsets; so `ArchiveRead` covers them |
| CariEntries.EndRecordFound | sc/cari.cpp:194-221 | the reader finds the end record where the writer put it, with its counts and offsets |
| CariEntries.DirectoryEntryFound | sc/cari.cpp:225-243 | at each entry's position the reader sees the fields written and as much of the name as its length field covers |
| CariEntries.WrittenZipReadBack | sc/cari.cpp:183-307 | the entries written are given back if and only if the format's fields can express their names and sizes, there is one, the limits are kept and every path is safe |
| CariEntries.ExpressibleZipReadBack | sc/cari.cpp:183-307 | entries the fields can express are taken if and only if they keep the limits and are safe; otherwise they are refused, never changed |
| CariEntries.AcceptedIsExpressible | sc/cari.cpp:225-304 | no accepted tree, from any octets, has a longer name or content than the fields can say |
| CariEntries.TreeOfExactly | sc/cari.cpp:309-322 | that tree has each file entry's octets and every entry's folders, and no more |
| CariRoundTrip.ReadZipUndoesWriteZip | sc/cari.cpp:183-388 | for every tree, ReadZip of WriteZip gives it back closed under parents if and only if the fields can express it, it is not empty, its paths are safe and the limits are kept |
| CariRoundTrip.BuiltTreeRoundTrip | sc/cari.cpp:148-166 | a tree built with AddFolder, AddFile and Remove comes back as it was if and only if it is not empty, within the limits and expressible |
| CariRoundTrip.LongNameLost | sc/cari.cpp:351-368 | one empty file with a safe path of 65536 octets keeps every limit and is lost |
| HubConnector.HubConnector.ReceiveFragment | sc/ScHubConnector.cpp:164-194 | assembles, drops an oversize message, hands up a finished one |
| HubConnector.HubConnector.HubProtocolCallback | sc/ScHubConnector.cpp:119-224 | the transition of one callback, stale or current, and whether the socket is closed; what it reports and opens is in the rows of `HubReports` |
| HubConnector.HubConnector.Connect | sc/ScHubConnector.cpp:289-341 | a fresh connection, the callbacks made during the call, then the socket or the conditional Error |
| HubConnector.HubConnector.Disconnect | sc/ScHubConnector.cpp:343-350 | asks a connection with a socket to close |
| HubConnector.HubConnector.Send | sc/ScHubConnector.cpp:352-361 | queues the frame if and only if the connection is open and fewer than 64 are queued |
| HubConnector.HubConnector.PopStatusEvent | sc/ScHubConnector.cpp:373-380 | the oldest status, taken off the queue |
| HubConnector.HubConnector.PopReceived | sc/ScHubConnector.cpp:382-389 | the oldest frame, taken off the queue |
| HubConnector.HubConnector.ReloadCredentials | sc/ScHubConnector.cpp:391-411 | reports each live connection once; the old context's callbacks change nothing |
| HubRuns.RunKeepsSound | sc/ScHubConnector.cpp:119-411 | in every run with reconnects and reloads: a connection is open if and only if it has its unended attempt's socket and that attempt reported Connected, nothing follows an attempt's Error or Disconnected, the frames handed up are the messages of 1 to 1600 octets in order and are what PopReceived gives, and written plus queued is what Send accepted, at most 64 queued |
| HubRuns.NextKeepsStatusesSound | sc/ScHubConnector.cpp:119-162 | each step keeps the statuses sound and the queue the untaken part of the log |
| HubReports.StatusHasCause | sc/ScHubConnector.cpp:119-411 | in every run an attempt is reported Connected only when libwebsockets said it is up, Error when it failed or was refused, Disconnected when it closed or a reload dropped it |
| HubReports.CurrentIsReported | sc/ScHubConnector.cpp:134-162 | and each of these callbacks of a current attempt is reported so, opens or ends the connection, and is queued last |
| HubReports.ConnectedCanSend | sc/ScHubConnector.cpp:352-361 | in every run Send queues the frame last if and only if the connection's own attempt reported Connected and fewer than 64 are queued; else it changes nothing |
| HubReports.ConnectThenSend | sc/ScHubConnector.cpp:289-361 | a connection made, up and writeable writes the frame it is given |
| HubReports.ClosingWritesNothing | sc/ScHubConnector.cpp:196-200 | once asked to close an attempt writes nothing more and closes when it could |
| HubReports.WritesFirst | sc/ScHubConnector.cpp:196-217 | when it can, an attempt writes the first frame queued and keeps the rest; a failed write keeps them all and closes the socket |
| HubReports.ReloadReportsAll | sc/ScHubConnector.cpp:391-411 | a reload leaves no connection up and reports Disconnected for every attempt that had a socket |
| HubRuns.NextKeepsTrafficSound | sc/ScHubConnector.cpp:164-218 | each step keeps the frames and the send queue sound |
| HubRuns.NextKeepsFrames | sc/ScHubConnector.cpp:183-389 | each step keeps the received queue the frames handed up and not yet taken, in order, a connection's own the last of its frames |
| HubRuns.FragmentKeepsFramesSound | sc/ScHubConnector.cpp:172-192 | one more fragment hands up a frame exactly when it finishes an acceptable message |
| HubRuns.StaleCallbackChangesNothing | sc/ScHubConnector.cpp:125-133 | an event from another socket changes nothing of a connection, and one from no connection's socket nothing at all |
| HubRuns.CallbacksLeaveUnanswered | sc/ScHubConnector.cpp:300-331 | no callback during the connect call touches the new attempt |
| HubRuns.SupersededStaysSilent | sc/ScHubConnector.cpp:119-133 | an attempt that is not its connection's current one never gets another status |
| HubRuns.RefusedAttemptReportedExactly | sc/ScHubConnector.cpp:332-339 | a refused attempt is reported, then or ever, if and only if the last queued status is not for its URI |
| HubRuns.MessageIsCutBack | sc/ScHubConnector.cpp:164-194 | a message cut into fragments, text fragments between them, is cut out of the stream whole |
| HubRuns.WholeMessageHandedUp | sc/ScHubConnector.cpp:172-192 | a delivered message hands up its octets if it has 1 to 1600, else nothing, and the next starts afresh |
| SenderCache.NewestAreDistinct | common/SimpleUDP6.cpp:192-207 | no address is among the newest 32 insertions twice |
| SenderCache.HeardIsRemembered | common/SimpleUDP6.cpp:192-207 | a link-local sender on a known interface is remembered with it at once, and any other sender changes nothing |
| SenderCache.NewestAre32 | common/SimpleUDP6.cpp:192-207 | an address is kept until 32 others were inserted after it, and no longer |
| SenderCache.DifferentSlots | common/SimpleUDP6.cpp:192-207 | two slots never hold one address |
| SenderCache.SimpleUDP6.FindSender | common/SimpleUDP6.cpp:197-201 | an address has a slot if and only if it is among the newest 32 insertions |
| SenderCache.SimpleUDP6.RememberSender | common/SimpleUDP6.cpp:192-207 | every slot goes on holding its newest insertion with the interface last heard |
| SenderCache.SimpleUDP6.InterfaceOf | common/SimpleUDP6.cpp:209-217 | for those addresses the interface last heard, as an unbounded map would; else the first one joined |
| SocketPoll.Helper.ReceiveMessage | common/CASExampleHelper.cpp:137-163 | serves the first waiting binding in cyclic order and moves the start after it, or by one |
| SocketPoll.DistanceDecreases | common/CASExampleHelper.cpp:137-163 | a call that serves another brings the start strictly nearer to a waiting binding |
| SocketPoll.ServedWithinN | common/CASExampleHelper.cpp:128-163 | a binding that stays waiting is served within n calls |

## Left out

- The BACnet stack itself: a send gives an invoke id or fails; alarms, schedules, trend logs and value-change
  notifications are not part of this model.
- OpenSSL, zlib and libwebsockets internals, real file systems, sockets, serial ports, logging and printing.
- `WriteTrustedIssuerBundle`, `Stat` and modification times, key passwords, `CertLayout`'s search for the port folder.
- `NetworkPortCommand` and `PrepareCertificates` around the store methods: they only dispatch to members above.
- CertStore.CertStore.GenerateKeyAndCsr: the new key and request are inputs, because OpenSSL makes them; the
  subject taken from the installed certificate is not modelled.
- CertTool.Node.EnsureNodeRequest: the request zip is an input; its notes, vendor data and names are text.
- CertTool.Node.ImportCariResponse: the response is the tree `ReadZip` gives; which octets hold a certificate
  is OpenSSL's answer.
- `Validate`, `ListCsrs`, `WriteToDir`, `ReadFromDir` and `IsValidName` of `sc/cari.cpp`: checks of names
  one by one, and I/O.
- CariZip.WriteZip: the time of day and the order of folders and files are inputs; the theorems hold for every
  order.
- CariRoundTrip.ReadZipUndoesWriteZip: a file with an empty path is excluded; the program takes the last octet of
  its name, which is undefined.
- `ParseHubUri`: an input says whether a URI is accepted.
- `DecodeBacnetFrame` past the PDU type, and `DecodeObjectAndProperty`: one field after another.
- Frames.IsStackChosenBroadcast: the copies in `main.cpp` and `common/CASExampleHelper.cpp` are the same
  code, modelled once.
- The other request builders and list decoders of `wiretest/codec.py`: the same tags again.
- The meaning of REALs: bit patterns, with the two zeros equal and NaN equal to nothing where the program
  compares floats.
