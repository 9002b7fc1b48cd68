# Before Colony: models and proofs

A Dafny model of the parts of Before Colony whose behaviour has to hold for every input or every
run, with proofs that it does:

- **Signing in.** The EIP-4361 texts a wallet signs, written into a fixed buffer with calendar dates
  (`Calendar`, `SignInText`, `SignInMessages`); addresses as hex (`Digits`, `Addresses`); base64url
  (`Base64Url`); the seven-line passes of Elo Pros (`Passes`) and the single-use nonces they spend
  (`Nonces`).
- **Avatars.** Rebuilding a glTF buffer from what is still used, and the file it is written to
  (`Avatars`, `Glb`).
- **Motion.** The server clock's estimate and the eased clocks drawn from it (`Clock`), the chase
  camera (`Chase`), both over one critically damped spring (`Springs`); the walk cycle (`Gait`).
- **Meshes and maps.** Compacting and joining meshes (`Meshes`), zipping two rings (`Stitching`), the
  city's chunk grid (`Chunks`) and its packed atlas (`CityAtlas`).
- **Indexes and state machines.** First-flight hints (`Hints`), kept records (`Baselines`), label
  placement (`Chart`).

Each stateful piece is a class whose methods are proved equal to a specification function of the old
state; the properties are lemmas about that function over all inputs or all runs. A `ghost` predicate
named `Greedy`, `Compacted`, `Relocated`, `Zipped` and the like is an independent description that the
code is proved to meet.

## Conventions

- A text is a `string` whose characters stand for its bytes (codes 0 to 255); decoded data is a
  sequence of `Byte`.
- Numbers in floating point are reals. The exponential is a parameter with e(0) = 1, e(a + b) =
  e(a) e(b), e > 0 (and e(x) >= 1 + x where stated); lengths are a parameter whose square is the dot
  product. `Exponential.IsExp` and `Vectors.IsLength` say so.
- Hash, MAC, signature and UTF-8 checks, player-id parsing, image shrinking, JSON text, block texels,
  the solids visited and the surface query are parameters.
- Where a word's width matters it is written out: the base64 accumulator is taken modulo 2^32, decimal
  printing takes 64-bit values, `compact`'s unset mark is 2^32 - 1, glTF words are below 2^32.

## Where the code and its comments part

Each entry names the comment (or the documentation of the file) and what the code does instead; the code is
what is modelled.

- crates/bc-auth/src/lib.rs:23 calls `SIWE_MAX` the longest message written. Longer ones are cut to it: from
  514 bytes on two issue times can write the same bytes, and at 513 only the closing `Z` is lost
  (`TimesToldApartIff`). Only the bare functions can be handed domains that long: every `Domain` has at most
  64 bytes, so the program's own texts have at most 466 (`ServedFits`, `ServedPinsFields`).
- crates/bc-auth/src/lib.rs:472 calls the decoder one of base64url with no padding. It also takes texts no
  encoder writes; `EncodeUndoesDecodeIff` says which.
- crates/bc-auth/src/lib.rs:197 says whether a domain is this machine. For a host with no port the answer is
  right exactly if the host has no colon or is not local (`BareLoopbackIff`): `[::1]` alone is taken for a
  remote page.
- crates/bc-server/src/elo.rs:18 says each nonce is good once. It is, from a server's start, exactly if the
  clock never reads ahead and then falls back near an earlier reading (`SingleUseIff`, `AdmitOnceIff`); a clock
  that never falls is one such.
- crates/bc-auth/src/lib.rs:507-508 says a refused pass spends nothing, and none does (`RefusedSpendsNothing`).
  But a refusal by the store still forgets what has run out, so should the clock then fall back it can make
  another nonce good again: it changes no take to come exactly if its pass never reached the store or nothing
  remembered had run out (`RefusalChangesNothingIff`, `RefusalCanRevive`).
- crates/bc-client-core/src/clock.rs:30-31 says the drawn clocks never run more than a few percent off real time.
  They never run more than a sixth off (`RatesNearRealTime`), and after a stall can run a tenth fast
  (`CanRunATenthFast`).
- crates/bc-client-core/src/clock.rs:36-37 says an offset follows its target instead of jumping. Aimed again at
  the target it has, it carries on exactly while its gap is within the snap distance (`ReaimSameTargetIff`),
  which it can pass after a page has stalled (`GapCanPassSnap`).
- crates/bc-client-core/src/gait.rs:128 says `footfalls` counts one each time a foot is planted. A standing foot
  can be planted and step off again within one frame, so the count can pass the landings seen from frame to
  frame; `StepsStraightOff` is exactly when, and `TurnedBackStepsStraightOff` a run in which it does.
- crates/bc-client-core/src/gait.rs:201 says a walk's swing cut short comes down where it is heading. It is
  sent to its rest instead (`Settling`).
- crates/bc-client-core/src/hints.rs:271 says the hub is near only outside the colony. The step takes that from
  its caller, unchecked; the one caller never reports otherwise in flight (crates/bc-client/src/settings.rs:200).
  With it a shown hint always fits its place (`ShownFitsPlace`), and it is all the step needs (`AlwaysFitsIff`).
- scripts/avatars/prep.py:125 says the buffer is rebuilt from what is still used. A sparse accessor's own two
  views do not count, and their numbers are copied unchanged into the renumbered table: its data survives
  exactly if those numbers still name it there (`SparseSurvives`, `SparseMeshLosesData`).

## Model

| member | source | states |
|---|---|---|
| Calendar.CivilCountsBack | crates/bc-auth/src/lib.rs:169-180 | for every day the date exists in the Gregorian calendar (month 1..12, day within the leap-aware month) and counting years, months and days to it gives the day back |
| Calendar.CivilInverts | crates/bc-auth/src/lib.rs:169-180 | every valid date from 1970 on is the one computed for its day number |
| Calendar.DaysBeforeYearClosed | crates/bc-auth/src/lib.rs:172-177 | counting years one at a time agrees with the 4, 100 and 400 year rules |
| Calendar.YearOfEraIsRight | crates/bc-auth/src/lib.rs:175-176 | the corrected quotient is the year of the era holding the day, day 365 only before a leap year's February ends |
| Calendar.DayNumberOrders | crates/bc-auth/src/lib.rs:169-180 | day numbers order dates, so no two dates share one |
| SignInText.IsoTextRoundTrips | crates/bc-auth/src/lib.rs:165-194 | before year 10000, and only then, the printed date and time is valid and counting to it gives the second printed |
| SignInText.IsoTextInjective | crates/bc-auth/src/lib.rs:169-194 | before year 10000 the text is injective in time |
| SignInText.YearBelow10000 | crates/bc-auth/src/lib.rs:180-182 | the four printed digits hold the year exactly until the first second of year 10000 |
| SignInText.LoopbackIff | crates/bc-auth/src/lib.rs:197-201 | with a port the page is local exactly when its host is one of the three |
| SignInText.BareLoopbackIff | crates/bc-auth/src/lib.rs:197-201 | for a host with no port the answer is right exactly when the host has no colon of its own or is not local |
| SignInText.BareIpv6IsRemote | crates/bc-auth/src/lib.rs:197-201 | the bare IPv6 loopback is taken for a remote page |
| SignInText.SchemeWithPort | crates/bc-auth/src/lib.rs:309 | with a port the page is addressed by http for the three local hosts and by https for every other |
| SignInText.SchemeBare | crates/bc-auth/src/lib.rs:309 | without one by http for `127.0.0.1` and `localhost` alone |
| SignInText.Text.Bytes | crates/bc-auth/src/lib.rs:137-142 | the buffer holds the first 512 bytes of everything written so far, this included |
| SignInText.Text.HexBytes | crates/bc-auth/src/lib.rs:146-150 | two lowercase hex digits a byte are added to what was written |
| SignInText.Text.Num | crates/bc-auth/src/lib.rs:151-164 | the number's decimal digits are added |
| SignInText.Text.Iso8601 | crates/bc-auth/src/lib.rs:169-194 | the date and time is added |
| SignInText.WriteMessage | crates/bc-auth/src/lib.rs:290-323 | the buffer ends with the first 512 bytes of the message's plain concatenation, and their count is returned |
| Digits.PrintDecimal | crates/bc-auth/src/lib.rs:112-123 | the digit loop prints every 64-bit value in decimal within its twenty bytes |
| Digits.DecimalLengthGrows | crates/bc-auth/src/lib.rs:112-123 | a larger number is never shorter in decimal |
| Addresses.LowerHex | crates/bc-auth/src/lib.rs:45-54 | `0x` and the address's forty lowercase digits |
| Addresses.ChecksumHex | crates/bc-auth/src/lib.rs:58-68 | each digit is upper case where the hash of the lowercase digits says so |
| Addresses.ChecksumIsEip55 | crates/bc-auth/src/lib.rs:58-68 | digit by digit, upper case exactly where the hash's own hex digit is 8 to f |
| Addresses.ParseHex | crates/bc-auth/src/lib.rs:81-91 | succeeds exactly when the trimmed text is `0x` or `0X` and the digits of some n bytes in any case, with those bytes |
| Addresses.SpellsOne | crates/bc-auth/src/lib.rs:81-91 | no text spells two byte strings |
| Addresses.ChecksumSpells | crates/bc-auth/src/lib.rs:58-68 | whatever the hash, the checksummed text reads back as its address |
| Addresses.ChecksumInjective | crates/bc-auth/src/lib.rs:58-68 | two addresses never share a checksummed text |
| SignInMessages.SiweMessage | crates/bc-auth/src/lib.rs:212-230 | writes the Ethereum text for the game and chain |
| SignInMessages.LegacyMessage | crates/bc-auth/src/lib.rs:260-281 | writes the first sign-in's text |
| SignInMessages.SiwsMessage | crates/bc-auth/src/lib.rs:234-251 | writes the Solana text |
| SignInMessages.TextWithPort | crates/bc-auth/src/lib.rs:290-323 | for every host and port each of the three texts is its letter word for word, the scheme by the host |
| SignInMessages.TextWithoutPort | crates/bc-auth/src/lib.rs:290-323 | likewise for every bare host |
| SignInMessages.TextPinsFields | crates/bc-auth/src/lib.rs:290-323 | equal texts are of the same kind with the same space-free domain, address, nonce and time |
| SignInMessages.BufferPinsFields | crates/bc-auth/src/lib.rs:131-142 | what the buffer holds pins down kind and every field, for texts of at most 513 bytes; the Ethereum, legacy and Solana texts never coincide |
| SignInMessages.TextLengthIsRight | crates/bc-auth/src/lib.rs:290-323 | the length of a text from its domain and address alone |
| SignInMessages.LongTextsCollide | crates/bc-auth/src/lib.rs:137-142 | past 513 bytes midnight and the second after write the same |
| SignInMessages.TimesToldApartIff | crates/bc-auth/src/lib.rs:131-142 | the buffer tells every two issue times apart if and only if the text is at most 513 bytes |
| SignInMessages.ServedFits | crates/bc-proto/src/auth.rs:30-53 | whatever a server is called, its domain holds no space and its texts have at most 466 bytes, so none is cut |
| SignInMessages.ServedPinsFields | crates/bc-auth/src/lib.rs:131-142 | so what the buffer holds pins down kind and every field, for every server's name |
| SignInMessages.EnvelopeInjective | crates/bc-auth/src/lib.rs:109-129 | no two messages share the EIP-191 envelope that is hashed |
| Base64Url.Decode | crates/bc-auth/src/lib.rs:474-496 | fails exactly on a character outside the alphabet or bytes that do not fit; else writes the floor(6n/8) whole bytes of the characters' bit stream |
| Base64Url.WordKeepsLow | crates/bc-auth/src/lib.rs:488 | an accumulator of 32 bits keeps the low bits of whatever is pushed into it |
| Base64Url.Accumulate | crates/bc-auth/src/lib.rs:488-489 | after a character the accumulator's low bits are the bits held and the character's six |
| Base64Url.TakeByte | crates/bc-auth/src/lib.rs:490-493 | the byte emitted and the bits left are the bits held |
| Base64Url.Encode | crates/bc-auth/src/lib.rs:781-798 | the characters' bits are the bytes' bits and zeros to a whole character |
| Base64Url.DecodeUndoesEncode | crates/bc-auth/src/lib.rs:474-496 | the encoding of any byte string decodes to it |
| Base64Url.DecodesOne | crates/bc-auth/src/lib.rs:474-496 | a text decodes to one byte string |
| Base64Url.EncodesOne | crates/bc-auth/src/lib.rs:781-798 | a byte string has one encoding |
| Base64Url.EncodingExists | crates/bc-auth/src/lib.rs:781-798 | and always one |
| Base64Url.EncodeUndoesDecodeIff | crates/bc-auth/src/lib.rs:474-496 | encoding what a text decodes to gives it back exactly when no character dangles and the bits left over are zero |
| Base64Url.NotInjective | crates/bc-auth/src/lib.rs:474-496 | two texts, one not canonical, that decode to the same byte |
| Passes.ParsesIffPrinted | crates/bc-auth/src/lib.rs:526-547 | a text parses to given fields exactly when it is their seven-line print, each on one line |
| Passes.VerifyPass | crates/bc-auth/src/lib.rs:510-563 | the result and the nonces used after are those of the specified attempt, every refusal and its order included |
| Passes.AcceptedIff | crates/bc-auth/src/lib.rs:498-563 | a pass admits somebody exactly when it splits into halves that decode in room to a text and its signature by Elo Pros, the text is the seven lines of some fields for this game, host and time, and the nonce is welcome; and then as they say |
| Passes.WrongSignerIff | crates/bc-auth/src/lib.rs:523-525 | the answer is a wrong signer exactly when both halves decode in room and the text is not signed |
| Passes.RefusedFor | crates/bc-auth/src/lib.rs:526-563 | the answers elsewhere, expired and replayed each exactly when that is what is wrong with a signed pass in order, so malformed exactly otherwise |
| Passes.ParsesU64Iff | crates/bc-auth/src/lib.rs:552 | a text parses as a number exactly when it is its decimal digits behind zeros and perhaps a plus, and the number has 64 bits |
| Passes.RefusedSpendsNothing | crates/bc-auth/src/lib.rs:505-509 | after a refused pass every nonce that would have been taken still is, at whatever reading; and at readings no earlier every one that would have been refused still is |
| Passes.RefusalChangesNothingIff | crates/bc-auth/src/lib.rs:505-563 | a refusal leaves every take as it was, at whatever reading, if and only if its pass never got as far as the store or nothing remembered has run out |
| Passes.NonceAdmitsOnce | crates/bc-auth/src/lib.rs:505-563 | over every run of attempts, whatever was remembered at first, no nonce admits anybody twice where the clock never falls back |
| Passes.NonceAdmitsOnceRising | crates/bc-auth/src/lib.rs:505-563 | so none does while the readings never fall |
| Passes.AdmitOnceIff | crates/bc-auth/src/lib.rs:505-563 | from a server's start, each pass checked and its nonce taken at one reading, no nonce admits anybody twice, whatever passes are presented, if and only if the clock never falls back |
| Passes.PassAdmitsOnceIff | crates/bc-auth/src/lib.rs:505-563 | one pass, shown as often as anyone likes among whatever others, admits at most once if and only if there are no two readings at which it is unexpired and its nonce good with one between at which the nonce has run out |
| Passes.ChecksUntil | crates/bc-auth/src/lib.rs:548-558 | a pass checks out exactly until its expiry, if nothing else about it is wrong, and always carries the same nonce |
| Passes.SignerIssues | crates/bc-auth/src/lib.rs:510-558 | a signer that signs what it is asked for an account here has a pass for every nonce of the server's at every reading |
| Passes.SignedPrintChecks | crates/bc-auth/src/lib.rs:510-558 | any signed print of acceptable fields, encoded, checks out as those fields |
| Passes.StaysSpent | crates/bc-auth/src/lib.rs:559-562 | once a nonce has admitted somebody it stays spent through the rest of the run |
| Nonces.Store.TakeAt | crates/bc-server/src/elo.rs:59-80 | result and remembered nonces are those of the specified take |
| Nonces.TakenIff | crates/bc-server/src/elo.rs:59-80 | a nonce is taken exactly when it is 64 lowercase hex digits, the second half the MAC of the first, opening with a time in its life, not held, with room; and then it is held under that time with those that were |
| Nonces.TakenCarriesMac | crates/bc-server/src/elo.rs:63-68 | over every run each nonce taken carries the MAC of its own head |
| Nonces.SpentRefuses | crates/bc-server/src/elo.rs:54-80 | a spent nonce is refused at every later reading |
| Nonces.SpentStays | crates/bc-server/src/elo.rs:73-79 | forgetting expired nonces never revives a spent one |
| Nonces.RefusedTakeSpendsNothing | crates/bc-server/src/elo.rs:70-76 | after a refused take what would have been taken still is, at whatever reading; at readings no earlier nothing changes |
| Nonces.RefusalChangesNothingIff | crates/bc-server/src/elo.rs:70-76 | a refused take changes none, at whatever reading, if and only if its nonce is none of the server's or out of its time, or nothing remembered has run out |
| Nonces.RefusalCanRevive | crates/bc-server/src/elo.rs:70-76 | refusing a nonce shown again makes an older one good again should the clock fall back to its time |
| Nonces.AfterIsWellKept | crates/bc-server/src/elo.rs:59-80 | over every run the store holds genuine nonces under their own times, no more than its cap |
| Nonces.IssuedIsGenuine | crates/bc-server/src/elo.rs:46-52 | a nonce as issued proves itself by its MAC and carries its time |
| Nonces.IssuedIsTakenIff | crates/bc-server/src/elo.rs:46-80 | it is taken exactly within its life, not remembered as used, with room for another |
| Nonces.FallsBackIff | crates/bc-server/src/elo.rs:70-74 | the clock falls back exactly when some time of issue is good at a reading, run out at a later one and good at a still later |
| Nonces.NotTakenTwice | crates/bc-server/src/elo.rs:59-80 | where it never does, no nonce is taken twice, whatever was remembered at first |
| Nonces.FallingClockReuses | crates/bc-server/src/elo.rs:70-79 | where it does, a run of two issued nonces is built in which one is taken twice |
| Nonces.SingleUseIff | crates/bc-server/src/elo.rs:59-80 | nonces are single use, whatever is shown and whatever the key, if and only if the clock never falls back |
| Nonces.RisingNeverFallsBack | crates/bc-server/src/elo.rs:59-80 | a clock that never falls never falls back |
| Glb.ReadUndoesWrite | scripts/avatars/prep.py:39-59 | reading a written file gives the same JSON and the zero-padded buffer |
| Glb.WrittenInShape | scripts/avatars/prep.py:51-59 | magic, version, total length and chunk lengths are right and both chunks are 4-aligned, the text filled out with blanks |
| Avatars.Buffer.AddView | scripts/avatars/prep.py:142-147 | the new view holds the data at a multiple of four past the others, which keep their bytes |
| Avatars.GapsAreZero | scripts/avatars/prep.py:143 | whatever lies between the views of the new buffer is zero |
| Avatars.KeepImages | scripts/avatars/prep.py:105-120 | each image shown is kept, with alpha if any material showing it blends and at the largest size asked |
| Avatars.FaceIff | scripts/avatars/prep.py:118-120 | a face's skin is a name with that text anywhere in it, kept at 1024 pixels and all else at 512 |
| Avatars.UsedAccessors | scripts/avatars/prep.py:126-137 | the set collected is exactly the accessors some place refers to |
| Avatars.CopyAccessors | scripts/avatars/prep.py:149-161 | accessors are numbered in order, each view copied once with its bytes and extras |
| Avatars.CopyImages | scripts/avatars/prep.py:162-171 | each kept image gets a view of its own with its shrunk bytes |
| Avatars.CopyTextures | scripts/avatars/prep.py:184-196 | each texture shown is copied once, pointing at its image's new index, and its materials at it |
| Avatars.RefsMoved | scripts/avatars/prep.py:172-183 | every place refers where its accessor went |
| Avatars.PrepVrm | scripts/avatars/prep.py:93-199 | the result is relocated: same bytes and descriptions behind every reference (sparse parts aside), same sharing, tidy views, nothing idle, each material its own image; and sparse data is the same exactly when its stale numbers still name it |
| Avatars.BuiltView | scripts/avatars/prep.py:149-171 | every view of the new table: those of the used accessors in order of first use, then the kept images, shrunk |
| Avatars.BuiltSparse | scripts/avatars/prep.py:150-161 | sparse accessors keep their data if and only if the numbers left in place name the same bytes in the new table |
| Avatars.DenseSurvives | scripts/avatars/prep.py:150-161 | so they do where no accessor in use is sparse |
| Avatars.SparseMeshLosesData | scripts/avatars/prep.py:150-161 | a document with one sparse accessor, whose data is lost |
| Avatars.OnePrepared | scripts/avatars/prep.py:20 | one document, with one way of shrinking images, is prepared to one result, its buffer byte for byte |
| Avatars.FileStaysRelocated | scripts/avatars/prep.py:39-59 | the file written reads back as a document still relocated, over the zero-padded buffer |
| Avatars.BuiltSameData | scripts/avatars/prep.py:149-183 | every reference left names the same bytes, stride, target and description as before, sparse parts aside |
| Avatars.BuiltSameSharing | scripts/avatars/prep.py:149-161 | references, and the views behind them, are equal after exactly when they were before |
| Avatars.BuiltNothingIdle | scripts/avatars/prep.py:93-197 | no accessor, view, image, texture or morph target is left that nothing refers to |
| Avatars.BuiltTexture | scripts/avatars/prep.py:162-196 | each material's texture reaches its own image, shrunk |
| Springs.Flow | crates/bc-client-core/src/chase.rs:33-39 | the critically damped closed form is a flow in time |
| Clock.AimCarriesOnIff | crates/bc-client-core/src/clock.rs:67-75 | aiming elsewhere leaves the drawn value where it was exactly when aimed before and within the snap distance (or already there); then its rate carries on too |
| Clock.ReaimSameTargetIff | crates/bc-client-core/src/clock.rs:51-75 | aimed again at its target it takes the same states ever after exactly while its gap is within the snap distance |
| Clock.RatesNearRealTime | crates/bc-client-core/src/clock.rs:51-76 | over every run, at every time, both drawn clocks run within a sixth of real time |
| Clock.CanRunATenthFast | crates/bc-client-core/src/clock.rs:156-197 | a run of snapshots after which the input clock runs more than a tenth fast |
| Clock.GapCanPassSnap | crates/bc-client-core/src/clock.rs:156-197 | a run of snapshots after which the input clock's gap passes the snap distance, so that aiming again at its target makes it jump |
| Clock.NoOvershoot | crates/bc-client-core/src/clock.rs:51-56 | from rest the gap keeps its sign and never exceeds its start |
| Clock.Clock.OnSnapshot | crates/bc-client-core/src/clock.rs:156-197 | the whole new state is the specified one |
| Clock.RangesKept | crates/bc-client-core/src/clock.rs:156-197 | over every run rtt is in 0..5, lead within 0.5 and 45 ticks over its base, the delay in 2..6, the late run under fifteen |
| Clock.EstimateBetween | crates/bc-client-core/src/clock.rs:163-177 | each estimate lands between the old one and the sample |
| Clock.ApproachLaw | crates/bc-client-core/src/clock.rs:161-177 | early within six ticks leaves nine tenths of the gap; late, 98 hundredths or all but 0.05, unless it is the fifteenth far-late; further early, first, or that fifteenth leave none |
| Clock.RunApproaches | crates/bc-client-core/src/clock.rs:163-177 | in any run n agreeing samples ahead within six ticks leave 0.9 to the n of the gap |
| Clock.RoundTripApproach | crates/bc-client-core/src/clock.rs:157-159 | the first round trip measured in 0..5 s is taken whole, a later one leaves nine tenths of the gap, any other nothing changes |
| Clock.SteadyIsExact | crates/bc-client-core/src/clock.rs:156-177 | over a steady network the estimate is the server's clock exactly, from the first snapshot on |
| Clock.DelayGrows | crates/bc-client-core/src/clock.rs:193-194 | the drawing delay is two ticks and a quarter of the round trip's ticks, at most six |
| Clock.LateRunCounts | crates/bc-client-core/src/clock.rs:161-162 | the late run counts far-late snapshots just past, each moving the estimate back at most 0.05 |
| Clock.MovesBackOnFifteenth | crates/bc-client-core/src/clock.rs:161-177 | a larger move back comes only on the fifteenth of fifteen consecutive far-late snapshots, and puts the estimate on the sample |
| Clock.FifteenSamplesSettle | crates/bc-client-core/src/clock.rs:163-177 | fifteen equal samples bring the estimate within six ticks from any state |
| Clock.RunSettles | crates/bc-client-core/src/clock.rs:156-177 | so they do anywhere in a run |
| Clock.RingMinimum | crates/bc-client-core/src/clock.rs:179-181 | the ring's minimum is that of the last (at most thirty) depths |
| Clock.LeadShrinksIff | crates/bc-client-core/src/clock.rs:182-190 | before clamping the lead shrinks exactly when all those depths exceed the target |
| Clock.LeadGrowsIff | crates/bc-client-core/src/clock.rs:182-190 | it grows exactly when the depth just reported is short of the target, and holds when that one is not but some recent one is not spare |
| Clock.LeadLaw | crates/bc-client-core/src/clock.rs:179-191 | by how much the lead grows and shrinks, from the depth reported and the least of the last thirty, and the bounds it is kept in |
| Clock.StepAims | crates/bc-client-core/src/clock.rs:193-196 | after each snapshot the drawn clocks head for the estimate plus the lead and for the estimate less the delay |
| Clock.DrawnClocksCarryOn | crates/bc-client-core/src/clock.rs:194-196 | a snapshot moves neither drawn clock at that instant, nor its rate, within the snap distance |
| Chase.SpringAnyFrameRate | crates/bc-client-core/src/chase.rs:32-39 | two steps of the spring are one step of their length |
| Chase.ChaseRig.StepClamped | crates/bc-client-core/src/chase.rs:94-120 | the new rig and whether it cut are those specified |
| Chase.IdealIs | crates/bc-client-core/src/chase.rs:64-68 | the camera's place is 42 m behind and 10 m above the suit in flight, 36 and 14 on a body |
| Chase.CutIff | crates/bc-client-core/src/chase.rs:94-103 | a step cuts exactly when the rig is new, is told to, or would be over 300 m off, and then to its place, moving with the suit |
| Chase.GroundLaw | crates/bc-client-core/src/chase.rs:95-98 | the mix closes on 1 on a body and 0 in flight, leaving e(-3 t) of the gap |
| Chase.LagLaw | crates/bc-client-core/src/chase.rs:104-108 | the lag's closed form in each coordinate, of rate 4.5 a second |
| Chase.TetherLaw | crates/bc-client-core/src/chase.rs:109-116 | held 25 m off along the line it was on, its rate along that line no longer outward and otherwise untouched |
| Chase.ReachGoesOver | crates/bc-client-core/src/chase.rs:123-131 | a place is reached by way of the point straight over the suit at its height |
| Chase.TetherHolds | crates/bc-client-core/src/chase.rs:100-119 | unclamped, every step that does not cut ends within the slack, and held there with no outward velocity |
| Chase.FreeStepIsSpring | crates/bc-client-core/src/chase.rs:104-119 | in the frame of a uniformly moving suit a free step is the spring's flow and nothing else |
| Chase.RigAnyFrameRate | crates/bc-client-core/src/chase.rs:94-120 | following uniform motion freely, two steps of the whole rig are one of their length |
| Chase.SitsInPlace | crates/bc-client-core/src/chase.rs:3-7 | in place and moving with the suit, the camera stays in place |
| Chase.GroundAnyFrameRate | crates/bc-client-core/src/chase.rs:97-98 | the ground mix eases the same at any frame rate |
| Gait.Walker.Advance | crates/bc-client-core/src/gait.rs:145-189 | the whole new walk is the specified one |
| Gait.Walker.StandStill | crates/bc-client-core/src/gait.rs:193-234 | likewise standing |
| Gait.PlantedStaysPut | crates/bc-client-core/src/gait.rs:145-234 | a foot planted before and after a step has not moved |
| Gait.WalkingCountsLandings | crates/bc-client-core/src/gait.rs:160-174 | the footfalls counted at speed, one for each foot up at a place it should be down, are the feet seen up before and down after |
| Gait.StandingCountsLandings | crates/bc-client-core/src/gait.rs:193-234 | standing likewise, and one more exactly when both feet are down by the end of the swings and the further from its rest has just landed past the settle distance |
| Gait.FootfallsCounted | crates/bc-client-core/src/gait.rs:145-234 | over every run on one body the footfalls are the landings seen and one for each foot that stepped straight off |
| Gait.OneFootfallALanding | crates/bc-client-core/src/gait.rs:145-234 | they are the landings seen if and only if no frame has a foot step straight off |
| Gait.TurnedBackStepsStraightOff | crates/bc-client-core/src/gait.rs:193-234 | a suit that turns about and back within five frames of a tenth of a second, whose left foot lands and is never seen down |
| Gait.FeetDownBySpeed | crates/bc-client-core/src/gait.rs:155-187 | after a walking step some foot is down, after a running one not both |
| Gait.PhaseGoesOn | crates/bc-client-core/src/gait.rs:155-160 | walking on one body, however the speed changes and time is cut, the phase moves on by the cycles walked, up to whole ones |
| Gait.WalkAnyFrameRate | crates/bc-client-core/src/gait.rs:155-160 | two frames at one speed give the phase of one of their length |
| Gait.EachFootOnceACycle | crates/bc-client-core/src/gait.rs:155-187 | over frames at one speed that walk one cycle, none longer than a foot's stance or swing, each foot lifts once and lands once |
| Gait.LiftLaw | crates/bc-client-core/src/gait.rs:172-185 | a foot lifts from where it stood, to 0.9 m walking and 2.2 m running |
| Gait.LandsWhereHeading | crates/bc-client-core/src/gait.rs:164-169 | it is put down where it was heading |
| Gait.PushLaw | crates/bc-client-core/src/gait.rs:171-187 | it rolls onto its toes and back by how near it is to leaving the ground |
| Gait.SwingArc | crates/bc-client-core/src/gait.rs:238-241 | a swing leaves where it set off, is halfway and at its apex at half time, and ends where it heads |
| Gait.EaseLaw | crates/bc-client-core/src/gait.rs:244-247 | the easing is the smooth step: at rest at both ends and the same from either |
| Gait.SettleLaw | crates/bc-client-core/src/gait.rs:196-217 | standing, a swing cut short goes to the foot's rest and lands on the frame that completes 0.35 s |
| Gait.NewBodyStartsOver | crates/bc-client-core/src/gait.rs:133-149 | on a new body both feet are down flat at rest at the beginning of the cycle |
| Gait.HeadsForMidStance | crates/bc-client-core/src/gait.rs:176-187 | a foot lifts off for where its hip will be when its cycle reaches the middle of its next stance |
| Gait.EachForItsOwnHip | crates/bc-client-core/src/gait.rs:161-187 | in a walking step each foot lifted heads for its own hip, and each foot up is as far through its swing as its own place says |
| Gait.FewMoreFootfalls | crates/bc-client-core/src/gait.rs:193-234 | under a fixed stand at most four more footfalls come, however long |
| Gait.ComesToRest | crates/bc-client-core/src/gait.rs:193-234 | under a fixed stand both feet end planted within the settle distance once enough frames of some least length have passed |
| Gait.StandStepCalms | crates/bc-client-core/src/gait.rs:193-234 | each standing frame brings the feet nearer rest, and at rest they stay |
| Meshes.MeshData.Compact | crates/bc-client-core/src/body_mesh.rs:76-89 | the mesh is left compacted: same corners in order, same sharing, used vertices only, numbered by first use |
| Meshes.CompactedUnique | crates/bc-client-core/src/body_mesh.rs:75-89 | that determines the mesh |
| Meshes.KeptAreUsed | crates/bc-client-core/src/body_mesh.rs:75-89 | every vertex kept is some triangle's, with its place and normal |
| Meshes.CompactIdempotent | crates/bc-client-core/src/body_mesh.rs:75-89 | compacting again changes nothing |
| Meshes.MeshData.Append | crates/bc-client-core/src/body_mesh.rs:92-97 | the other mesh's vertices and shifted indices follow |
| Meshes.AppendDenotesBoth | crates/bc-client-core/src/body_mesh.rs:91-97 | the result denotes both meshes' triangles, in order |
| Meshes.CompactedAppend | crates/bc-client-core/src/body_mesh.rs:445-457 | so does its compaction |
| Stitching.Zip | crates/bc-client-core/src/body_mesh.rs:419-435 | takes every point of both rings once, in the order of their angles, the hole's first where they tie, a triangle each; none if a ring is empty |
| Stitching.OneBand | crates/bc-client-core/src/body_mesh.rs:422-435 | as many triangles as points, each sharing a spoke with the next, and the last spoke is the first |
| Stitching.HoleEdgeOnce | crates/bc-client-core/src/body_mesh.rs:428-430 | each edge of the hole is one step's; with distinct vertices and at least three a ring, exactly one triangle has both its ends |
| Stitching.RimEdgeOnce | crates/bc-client-core/src/body_mesh.rs:431-433 | each edge of the rim likewise |
| Stitching.EveryTriangleUsesAnEdge | crates/bc-client-core/src/body_mesh.rs:428-434 | every triangle is one of those |
| Stitching.SpokesInTwoIff | crates/bc-client-core/src/body_mesh.rs:419-435 | of such rings exactly the two triangles beside a spoke have both its ends, for every spoke, if and only if the rings are not pinched |
| Stitching.SomeArePinched | crates/bc-client-core/src/body_mesh.rs:419-435 | two rings that are |
| Stitching.TwoGapsSpokesInTwo | crates/bc-client-core/src/body_mesh.rs:419-435 | rings are not where the hole's second and last points lie in different gaps of the rim, so each spoke is in two triangles |
| Stitching.EvenRimSpokesInTwo | crates/bc-client-core/src/body_mesh.rs:364-376 | nor where a rim is evenly spaced and those points are further apart than its spacing |
| Chart.Declutter | crates/bc-client-core/src/chart.rs:286-302 | the labels shown are the greedy choice by rank and place in the list |
| Chart.ClearIff | crates/bc-client-core/src/chart.rs:294-295 | labels are clear of each other exactly when no point lies inside both, one of them grown by the gap |
| Chart.GreedyUnique | crates/bc-client-core/src/chart.rs:286-302 | there is one greedy choice |
| Chart.ShownApartHiddenBlocked | crates/bc-client-core/src/chart.rs:286-302 | shown labels keep the gap from each other, and each hidden one is blocked by one shown ahead of it |
| Chart.OrderDoesNotMatter | crates/bc-client-core/src/chart.rs:290-302 | with distinct ranks the answer is the same however the labels are listed |
| Chart.TiesGoToTheFirst | crates/bc-client-core/src/chart.rs:290 | with equal ranks the first listed is shown |
| Chart.Thousands | crates/bc-client-core/src/chart.rs:232-243 | the number's digits, a comma after every third from the right and nowhere else |
| Hints.HintsShown.StepOnce | crates/bc-client-core/src/hints.rs:303-398 | new state, seen set and hint shown are the specified ones |
| Hints.FirstIsFirst | crates/bc-client-core/src/hints.rs:387-393 | the hint picked is eligible and nothing listed before it is |
| Hints.BitsDistinct | crates/bc-client-core/src/hints.rs:86-88 | no two hints share a bit and none takes the launch's |
| Hints.SeenOnlyGrows | crates/bc-client-core/src/hints.rs:303-398 | the seen set only grows over a run |
| Hints.ShownFitsPlace | crates/bc-client-core/src/hints.rs:97-129 | with the hub reported near only outside, as its field says, a shown hint always fits where the pilot is |
| Hints.AlwaysFitsIff | crates/bc-client-core/src/hints.rs:97-129 | whatever came before, the hints shown in a frame all fit if and only if it does not report the hub near while flying inside under survival rules |
| Hints.HubShownInside | crates/bc-client-core/src/hints.rs:119 | in such a frame the hub's hint can be shown inside |
| Hints.ShownIsNewAndFits | crates/bc-client-core/src/hints.rs:281-400 | a hint shown in any frame of a run had not been seen up to then, is on foot when the pilot is, and fits the place |
| Hints.QuietAfterFinish | crates/bc-client-core/src/hints.rs:374-385 | nothing is shown for the gap after a hint is done with |
| Hints.NextAfterGap | crates/bc-client-core/src/hints.rs:376-399 | in the first frame two seconds after it that hints go on, the first eligible is shown |
| Hints.FirstAtOnce | crates/bc-client-core/src/hints.rs:383-399 | from the start the first eligible is shown at once |
| Hints.FinishesIff | crates/bc-client-core/src/hints.rs:324-379 | a hint in its place is done with exactly when it has been up too long, or its action has gone on a second since it came up, a hop besides for the surface's, or has been done at all where that is enough |
| Hints.CountsTheDoing | crates/bc-client-core/src/hints.rs:349-350 | what is counted while a hint is up is the time its action has gone on |
| Hints.FlyingDeeds | crates/bc-client-core/src/hints.rs:324-349 | deed by deed, which hints flying it is the doing of |
| Hints.ViewDeeds | crates/bc-client-core/src/hints.rs:324-349 | the same at the view, the chart and a target |
| Hints.FootDeeds | crates/bc-client-core/src/hints.rs:324-349 | the same on foot |
| Hints.LandingDeeds | crates/bc-client-core/src/hints.rs:324-349 | the same landing and going home |
| Hints.Patience | crates/bc-client-core/src/hints.rs:209-219 | which hints stay up how long |
| Hints.Places | crates/bc-client-core/src/hints.rs:97-107 | place by place, which hints do not belong there |
| Hints.DueInTheBay | crates/bc-client-core/src/hints.rs:111-129 | which hints mean something in the bay and on its deck |
| Hints.DueOutside | crates/bc-client-core/src/hints.rs:111-129 | which do in the city and near the hub |
| Hints.DueInside | crates/bc-client-core/src/hints.rs:111-129 | which do inside the colony |
| Hints.DueAtMoments | crates/bc-client-core/src/hints.rs:111-129 | which do with a hostile near, or hungry |
| Hints.DueOnSurfaces | crates/bc-client-core/src/hints.rs:111-129 | which do near a surface and on it |
| Hints.FinishedBounded | crates/bc-client-core/src/hints.rs:374-378 | no run finishes more hints than it started with unseen |
| Hints.AirlockWaits | crates/bc-client-core/src/hints.rs:386-391 | with the colony closed the airlock's hint never comes before the first boarding |
| CityAtlas.PruningIsSound | crates/bc-client-core/src/city_atlas.rs:68-83 | cells the loops skip are not half covered |
| CityAtlas.RaisesIs | crates/bc-client-core/src/city_atlas.rs:62-80 | a cell is raised to the least whole metre not below a roof of 1 to 240 m that covers 128 of its 256 square metres, and else to nothing |
| CityAtlas.OverlapIs | crates/bc-client-core/src/city_atlas.rs:68-80 | the overlap is the length of the longest span within both |
| CityAtlas.Raise | crates/bc-client-core/src/city_atlas.rs:62-86 | exactly the cells a solid half covers are raised to its rounded-up top |
| CityAtlas.RoofIsMax | crates/bc-client-core/src/city_atlas.rs:49-53 | the specified roof is the largest top over the cell, and is one of them |
| CityAtlas.RoofOfSameSolids | crates/bc-client-core/src/city_atlas.rs:58-61 | it does not depend on how often or in what order solids are visited |
| CityAtlas.HeightsOfStrip | crates/bc-client-core/src/city_atlas.rs:57-88 | each cell of the strip is the tallest roof over it of all the solids visited |
| CityAtlas.Heights | crates/bc-client-core/src/city_atlas.rs:53-90 | so for every strip, one after another |
| CityAtlas.BlockAtlas | crates/bc-client-core/src/city_atlas.rs:36-47 | row by row, each block's four bytes |
| CityAtlas.Atlas | crates/bc-client-core/src/city_atlas.rs:95-106 | the block map's rows at the top left, the height maps under them |
| CityAtlas.BlockAtItsTexel | crates/bc-client/src/shaders/city_lib.wgsl:164-167 | a block's bytes are at the texel the shader looks for |
| CityAtlas.HeightAtItsTexel | crates/bc-client/src/shaders/city_lib.wgsl:190-195 | a height cell is in the texel and channel the shader names |
| CityAtlas.TexelsApart | crates/bc-client-core/src/city_atlas.rs:92-106 | no two texel channels share a byte, and blocks lie before heights |
| CityAtlas.PlacesApart | crates/bc-client/src/shaders/city_lib.wgsl:164-195 | no two blocks share a texel row and no two height cells a channel |
| Chunks.RowNumbering | crates/bc-client-core/src/city_mesh.rs:152-159 | row numbering is a bijection from the rows to 0..24 |
| Chunks.HoldsIffOf | crates/bc-client-core/src/city_mesh.rs:167-177 | a block lies in a chunk's ranges exactly when that chunk is found for it |
| Chunks.LiesInsideOne | crates/bc-client-core/src/city_mesh.rs:167-177 | all of a chunk lies in exactly one chunk of the next level |
| Chunks.SpanEdges | crates/bc-sim/src/colony/city.rs:1073-1083 | adjacent rows' spans abut but at the avenue |
| Chunks.RowSpanIs | crates/bc-sim/src/colony/city.rs:1073-1083 | twelve rows 128 m deep on either side of an 80 m avenue, and the banks past them |
| Chunks.RectRunsAlong | crates/bc-client-core/src/city_mesh.rs:180-190 | a chunk's blocks are 128 m long, the first 16384 m behind the middle |
| Chunks.DrawnBetweenEdges | crates/bc-client-core/src/city_mesh.rs:194-215 | what a chunk draws runs between the edges of its rows, the avenue's middle and the glass included |
| Chunks.DrawnByExactlyOne | crates/bc-client-core/src/city_mesh.rs:194-215 | at every level anything on the strip is drawn by exactly one chunk |
| Baselines.Baselines.Put | crates/bc-client-core/src/baselines.rs:40-50 | the record joins the history, whose newest the rings keep |
| Baselines.Baselines.Clear | crates/bc-client-core/src/baselines.rs:26-28 | the history starts over |
| Baselines.Baselines.Get | crates/bc-client-core/src/baselines.rs:31-37 | the newest record of that tick among the last sixteen put to the slot since the last clear |
| Baselines.PushKeeps | crates/bc-client-core/src/baselines.rs:47-49 | writing at the head keeps the ring the newest records, through wrap-around |
| Baselines.PutIsFound | crates/bc-client-core/src/baselines.rs:31-50 | a record just put is found, and no other slot changes |
| Baselines.KeptIff | crates/bc-client-core/src/baselines.rs:10-16 | a record is found exactly until sixteen more are put to its slot |

## Left out

- Keccak, ECDSA recovery, Ed25519 and player ids: library code or elsewhere; parameters here. `verify` and `verify_solana` only compose the texts with them.
- Rounding, infinities and NaN of floating point, and integer overflow of `now + 5`: arithmetic is exact.
- The blanks `str::trim` takes off beyond ASCII's own: they do not occur in addresses and signatures.
- Chase.RigAnyFrameRate: for steps that neither cut nor reach the tether, with the ground mix settled and nothing in the way; outside that the steps differ by design.
- Gait.ComesToRest: how many frames it takes is bounded through the shortest frame, not as a settling time, since a step off keeps the foot's old swing.
- Hints.ShownIsNewAndFits: boarding and going down are taken to be reported only while flying or walking; otherwise the hint they mark stays up.
- Stitching.Zip: it counts the triangles asked for, points at one angle included; dropping those without area and turning each to face out is `MeshData::tri`'s, which is not part of this model.
- How the hole's edge is found and the rings are sorted by angle: rings come sorted.
- `MeshData::grid`, `crater_bowl`'s halving, tree crowns, facades and rooms: geometry, not modelled.
- Avatars.PrepVrm: meshes are one list of primitives and animations one of samplers; the stance, the extensions and the fixed material factors are not modelled. A document whose references lead nowhere, or with an accessor that has no view of its own, makes the script fail, and is excluded.
- `ChartCam`, the chart's camera (a view turned, slid and zoomed by the mouse, eased towards its goal frame by frame): its easing is the exponential approach of `Chase.GroundAnyFrameRate`; the gestures and the chart's other readouts are not modelled.
- Passes.AdmitOnceIff: the server reads its clock twice in an attempt, to check the expiry and to take the nonce; here both readings are one. `NonceAdmitsOnce` lets them differ.
- Concurrency of the nonce store: takes are in the order its lock gives them.
- The hints' wording, and every page, renderer and asset script.
