# MiniEAP in Dafny

MiniEAP is an 802.1X supplicant with a plugin for the RJv3 dialect. This project models the parts of it whose
behaviour ranges over unbounded inputs or runs, in the form the C code has (classes whose methods update fields and
heap nodes, loops over buffers, expressions), and proves what those parts are for. `dafny verify dfyconfig.toml`
checks all of it.

- **The alarm scheduler.** `LinkedList` is the list on heap nodes, `SchedAlarm` the scheduler on two such lists,
  `AlarmSpec` the same operations on sequences, `AlarmRuns` any run of calls, seconds and rings in which callbacks
  make any calls of the scheduler. Time is counted in seconds and the handler is one step.
- **The RJv3 property codec.** `Rjv3Prop` parses, `Rjv3Codec` writes and relates both directions, `Rjv3Modify`
  replaces contents and builds the trailer of a frame.
- **The streaming hashes.** `MerkleDamgard` holds the reference definition (a fold of a block function over a padded
  message) and `Md5`, `Rhash` and `Ripemd` the contexts that refine it. Block functions are parameters. `Tiger` is one
  block function in its two compiled forms. `ByteOrder` is the copies that swap the bytes of words.
- **Checksum and scrambling.** `Gf2` is long division of polynomials over the field of two elements, `Crc16` the
  table-driven checksum, `Scramble` the private header and the twisted numbers of the keep-alive frames.
- **The EAP state machine with double authentication.** `EapSpec` is one event on values, `EapMachine` the fields and
  nested transitions, `EapRuns` any events in any order with any network and any leases; `Dhcp` the DHCP modes.
- **Text.** `Gbconv` converts GBK to UTF-8 with any table; the one in `util/gbconv.c` has no surrogates, so the
  condition under which the output reads back holds, and both callers of `pr_info_gbk` exclude a length of zero. `Conf` loads and saves the configuration file, `RjOption`
  reads and writes `--rj-option` texts, `SavedOptions` takes them through the file; `CStrings` and `Octets` are shared.

Where a method changes state, its contract equates the new state with a function of the old one, and the lemmas speak
about that function. The lengths, counters and words that wrap in the source wrap here (64-bit byte counts, the two
32-bit words of MD5, length bytes, byte conversions); event ids, seconds and the EAP counters do not.

## Findings

What the code does not keep, with an input and the exact condition under which it does.

- **An alarm can ring late.** `schedule_alarm` outside a ring arms the timer again without charging the seconds that
  have passed to the events that wait. `AlarmRuns.FirstAlarmFiresLate`: alarms of two and three seconds set one second
  apart, and the first rings at second 3. `AlarmRuns.OnTimeIffNothingWithheld`: a firing is on time if and only if each
  such call made while the event waited came zero seconds after an arming; otherwise it is late by exactly the sum.
- **Unscheduling during a ring is not always obeyed.** `fire_single` does not look at the mark, and the temporary list
  is not searched. `AlarmRuns.UnscheduledYetFiresNow` and `AlarmRuns.UnscheduledYetFiresLater` are a run for each.
  `AlarmRuns.UnscheduledDuringRing`: the event fires in this ring if and only if it was due in it, and is pending
  afterwards if and only if this ring has scheduled it. `AlarmRuns.UnscheduledBeforeItsTurn`: the first also holds of
  calls made before the event's turn, which are the ones that are disobeyed.
- **A change of size is counted twice in the trailer of a frame.** The running length starts with what the
  modifications added, and the modified list is added to it. `Rjv3Modify.OneByteLonger`: one property made one byte
  longer, and the receiver's parse fails. `Rjv3Modify.SentIsTrailer`: the trailer is right if and only if, over the
  types in both lists, the last modifications are together as long as the first properties they replace.
- **SUCCESS overwrites START_SENT.** After an EAP-Success that is not the last one required, an EAPOL-Start goes out and
  the nested transition sets START_SENT, but the outer `switch_to_state` then sets SUCCESS.
  `EapRuns.FirstOfTwoSuccesses` is such a success. `EapRuns.PromiseKeptOnLastRound`: the state after a success is the
  one the header's table promises if and only if the successes so far are a multiple of the configured number.
  `EapRuns.StateFollowsEvents` gives the state after every event, and `EapRuns.FinishesOnConfiguredSuccess` says that
  the machine nevertheless finishes only on the last round.
- **Double authentication never sends the lease.** The private header carries it from the second success on, but the
  counter is reset at the second success. `EapRuns.LeaseIsNeverSent`: no reachable state shows two successes;
  `EapRuns.CountsHalves`: the counter is exactly the number of halves done, none or one.
- **Options without content, or with a long one, do not survive the configuration file.** A file line carries 99 bytes.
  `SavedOptions.SavedOptionsReload`: the options come back if and only if each has content, at most 43 bytes of it, and
  at most 42 if it is a modification. `SavedOptions.LongModification`: a longer modification comes back as an addition.
  `RjOption.EmptyContent`: a modification without content reads as the addition of one byte.
- **A property that does not fit is subtracted.** `append_rjv3_prop_list_to_buffer` keeps the -1 of a property without
  room in an unsigned variable, takes it for a length and adds it. `Rjv3Codec.SecondDoesNotFit`: with two properties
  and room for one the result is 7. `Rjv3Codec.AppendResultIsTotal`: the result is the serialized size if and only if
  there was room for everything.
- **Contents that look like the magic.** A bare field without a trustworthy length ends at the next magic.
  `Rjv3Codec.OneFieldReadAsTwo` is such a field, read as two. `Rjv3Codec.BareRoundTrip`: a buffer parses back into its records if and only if each length that is trusted is right
  and no other content hides the magic.

The table in `include/eap_state_machine.h` says that a success before the last required round leaves START_SENT, and
`include/sched_alarm.h` promises a call after the given seconds; the model follows the code in both.

## Model

| member | source | states |
|---|---|---|
| `LinkedList.List.InsertData` | util/linkedlist.c:12-26 | the data is behind the old contents, in a fresh node |
| `LinkedList.List.RemoveData` | util/linkedlist.c:72-87 | exactly the contents the comparison does not call equal remain, in order |
| `LinkedList.List.Concat` | util/linkedlist.c:50-58 | the contents are the two lists one behind the other, on the same nodes |
| `LinkedList.List.LookupData` | util/linkedlist.c:29-38 | the first node whose content the comparison calls equal, or none |
| `LinkedList.List.Traverse` | util/linkedlist.c:40-48 | every content is updated once, on the same nodes |
| `SchedAlarm.Scheduler.ScheduleAlarm` | util/sched_alarm.c:156-189 | the new state is the specification's; the id is the next one |
| `SchedAlarm.Scheduler.UnscheduleAlarm` | util/sched_alarm.c:140-154 | removed outside a ring, marked in the main list during one |
| `SchedAlarm.Scheduler.FireAll` | util/sched_alarm.c:69-73 | the expired events' functions run in order while they change the lists |
| `SchedAlarm.Scheduler.CleanUp` | util/sched_alarm.c:99-105 | unexpired unmarked events, then those scheduled in the ring; the temporary list is empty |
| `SchedAlarm.Scheduler.AlarmSigHandler` | util/sched_alarm.c:80-115 | one ring on heap nodes is the specification's ring, whatever the callbacks do |
| `AlarmRuns.RingClosedForm` | util/sched_alarm.c:80-115 | one ring in closed form: survivors, then new events, armed to the minimum |
| `AlarmRuns.FiredAreTheCalled` | util/sched_alarm.c:69-73 | the log of a ring lists exactly the functions called, in order |
| `AlarmRuns.InvAlways` | util/sched_alarm.c:46-189 | remaining, birth, delay and the armed time agree in every reachable state |
| `AlarmRuns.RunsArmTheSooner` | util/sched_alarm.c:176-181 | in every run the timer is armed to the sooner of what it had left and the new alarm, or to the alarm if none was set |
| `AlarmRuns.ScheduleArmsTheSooner` | util/sched_alarm.c:168-188 | the same of any state; in a ring the timer is let be |
| `AlarmRuns.UnscheduleKeepsTheRest` | util/sched_alarm.c:140-154 | unscheduling touches neither the timer nor an event with another id |
| `AlarmRuns.FiresExactlyWhenDue` | util/sched_alarm.c:46-115 | in every run an event nobody unscheduled has fired if and only if its time has come, once, at that time |
| `AlarmRuns.LateIsWithheld` | util/sched_alarm.c:176-188 | an event's delay is the sum of the seconds uncharged by calls made while it waits |
| `AlarmRuns.OnTimeIffNothingWithheld` | util/sched_alarm.c:156-189 | on time if and only if no such call came seconds after an arming; the delay otherwise |
| `AlarmRuns.FirstAlarmFiresLate` | util/sched_alarm.c:176-188 | a run in which an alarm of two seconds rings at second three |
| `AlarmRuns.UnscheduledNeverFires` | util/sched_alarm.c:140-154 | unscheduled outside a ring, an event fires in no later step of any run |
| `AlarmRuns.UnscheduledDuringRing` | util/sched_alarm.c:69-78 | unscheduled in a ring: fires now if and only if due, stays pending if and only if scheduled in this ring |
| `AlarmRuns.UnscheduledBeforeItsTurn` | util/sched_alarm.c:69-78 | unscheduled by an event in front of it, an event fires all the same if and only if it is due |
| `AlarmRuns.RingUnscheduledNeverFiresLater` | util/sched_alarm.c:140-143 | an event of the main list unscheduled in a ring fires in no later step of any run |
| `AlarmRuns.UnscheduledYetFiresNow` | util/sched_alarm.c:69-73 | a run in which a marked event fires in the same ring |
| `AlarmRuns.UnscheduledYetFiresLater` | util/sched_alarm.c:140-143 | a run in which an event of the temporary list fires though unscheduled |
| `AlarmRuns.UnscheduleZeroIsNoOp` | util/sched_alarm.c:140-154 | unscheduling id 0 changes nothing, ringing or not |
| `AlarmRuns.RingsDrain` | util/sched_alarm.c:80-115 | in every run, if nothing new is scheduled, n events are gone after n + 1 rings |
| `Rjv3Prop.FindBytePattern` | packet_plugin/rjv3/packet_plugin_rjv3_prop.c:157-166 | the distance to the first magic, or -1 |
| `Rjv3Prop.FindMagicIsFirst` | packet_plugin/rjv3/packet_plugin_rjv3_prop.c:157-166 | no magic lies before the position found, and none anywhere if none is found |
| `Rjv3Prop.PropList.ParseBuf` | packet_plugin/rjv3/packet_plugin_rjv3_prop.c:187-263 | both loops end and append exactly the fields of the specification |
| `Rjv3Prop.PropList.Append` | packet_plugin/rjv3/packet_plugin_rjv3_prop.c:29-48 | the property at the end of the list; the returned size is cut to a byte |
| `Rjv3Prop.LowByteIsRemainder` | packet_plugin/rjv3/packet_plugin_rjv3_prop.c:42-45 | storing an int in a length byte leaves its remainder by 256, also of negative ones |
| `Rjv3Codec.NoStraddle` | packet_plugin/rjv3/packet_plugin_rjv3_prop.c:187-221 | no magic begins in a content and ends in the next field |
| `Rjv3Codec.SearchStopsAtContent` | packet_plugin/rjv3/packet_plugin_rjv3_prop.c:200-221 | the search stops at the end of the content if and only if the content hides no magic |
| `Rjv3Codec.BareRoundTrip` | packet_plugin/rjv3/packet_plugin_rjv3_prop.c:187-221 | bare parsing inverts concatenating records if and only if trusted lengths are right and other contents hide no magic |
| `Rjv3Codec.SingleField` | packet_plugin/rjv3/packet_plugin_rjv3_prop.c:172-185 | types 0 and 1 and lengths below 2 are delimited by the search, all others by their length |
| `Rjv3Codec.MagicAtTheEnd` | packet_plugin/rjv3/packet_plugin_rjv3_prop.c:157-166 | the magic as the last bytes of a buffer is content |
| `Rjv3Codec.BadFieldFails` | packet_plugin/rjv3/packet_plugin_rjv3_prop.c:194-263 | an incomplete or unmarked field fails and adds nothing, in either form |
| `Rjv3Codec.UnknownOuterType` | packet_plugin/rjv3/packet_plugin_rjv3_prop.c:235-244 | a field with an unknown outer type ends in front of the next outer header, or with the buffer |
| `Rjv3Codec.OneFieldReadAsTwo` | packet_plugin/rjv3/packet_plugin_rjv3_prop.c:200-221 | a field whose content holds the magic is read as two fields without content |
| `Rjv3Codec.FramedRoundTrip` | packet_plugin/rjv3/packet_plugin_rjv3_prop.c:222-263 | parsing with outer headers inverts serializing, for every list of contents up to 253 bytes |
| `Rjv3Codec.SerializedLayout` | packet_plugin/rjv3/packet_plugin_rjv3_prop.c:42-45 | byte by byte what a property is written as: the outer length counts everything |
| `Rjv3Codec.ListLayout` | packet_plugin/rjv3/packet_plugin_rjv3_prop.c:121-137 | each property of a list lies in it with its own outer length |
| `Rjv3Codec.LengthByteFits` | packet_plugin/rjv3/packet_plugin_rjv3_prop.c:42-45 | a new property's length byte covers its content if and only if that has at most 253 bytes |
| `Rjv3Codec.AppendToBuffer` | packet_plugin/rjv3/packet_plugin_rjv3_prop.c:99-119 | -1 without room, 0 for another header type, else the serialized property in place |
| `Rjv3Codec.AppendListToBuffer` | packet_plugin/rjv3/packet_plugin_rjv3_prop.c:121-137 | the result and the memory, with and without room: each property that fits lies at the running total |
| `Rjv3Codec.AppendWithRoom` | packet_plugin/rjv3/packet_plugin_rjv3_prop.c:121-137 | given room, the serialized list in place and nothing else changed |
| `Rjv3Codec.AppendResultIsTotal` | packet_plugin/rjv3/packet_plugin_rjv3_prop.c:122-136 | the result is the serialized size if and only if everything fitted |
| `Rjv3Codec.SecondDoesNotFit` | packet_plugin/rjv3/packet_plugin_rjv3_prop.c:122-136 | two properties with room for one give the result 7 |
| `Rjv3Modify.OwnList.ModifyProp` | packet_plugin/rjv3/packet_plugin_rjv3_prop.c:57-76 | the first property of the type gets the content; the result is the change of the length byte |
| `Rjv3Modify.ModifyAllIsChanged` | packet_plugin/rjv3/packet_plugin_rjv3_prop.c:78-89 | property by property: only the first of a type changes, and the last modification wins |
| `Rjv3Modify.ModifyConservesSize` | packet_plugin/rjv3/packet_plugin_rjv3_prop.c:78-89 | size afterwards is size before plus the returned difference |
| `Rjv3Modify.DeltaIsGrowth` | packet_plugin/rjv3/packet_plugin_rjv3_prop.c:78-89 | the returned difference, read off the two lists |
| `Rjv3Modify.TrailerParses` | packet_plugin/rjv3/packet_plugin_rjv3_priv.c:406-441 | behind its header a right trailer parses into the properties it was made of; the header is a zero, the magic and the length of what follows |
| `Rjv3Modify.AppendTrailer` | packet_plugin/rjv3/packet_plugin_rjv3_priv.c:406-441 | what the frame gets: the list displaced by the difference, then the command line's properties |
| `Rjv3Modify.SentIsTrailer` | packet_plugin/rjv3/packet_plugin_rjv3_priv.c:406-441 | that is the right trailer if and only if the replaced contents keep their total size |
| `Rjv3Modify.OneByteLonger` | packet_plugin/rjv3/packet_plugin_rjv3_priv.c:406-441 | one property made one byte longer gives a body the parser rejects |
| `MerkleDamgard.PadIsInjective` | packet_plugin/rjv3/rjv3_hashes/rjmd5.c:208-236 | below 2^61 bytes a padded message determines the message |
| `MerkleDamgard.PadLayout` | packet_plugin/rjv3/rjv3_hashes/rjwhirlpool.c:191-217 | whole blocks, the fewest that hold message, marker and reserved bytes; zeros between; the bit length last |
| `MerkleDamgard.ByteOrdersMirror` | packet_plugin/rjv3/rjv3_hashes/rjsha1.c:167-196 | big-endian is little-endian backwards, and that begins with the lowest byte |
| `MerkleDamgard.AbsorbsInOrder` | packet_plugin/rjv3/rjv3_hashes/rjmd5.c:165-200 | blocks are processed in the order they come in |
| `Md5.CarryIsExact` | md5.c:117-120 | the two words and their carry count bits modulo 2^64 |
| `Md5.GuardIsExact` | md5.c:130-131 | the loop guard of the update does not wrap for chunks up to 2^32 - 64 bytes |
| `Md5.PaddedLayout` | md5.c:145-168 | one bit, zeros and the little-endian bit length, in the fewest blocks |
| `Md5.InitialBytes` | md5.c:92-102 | the initial words are the bytes section 3.3 of RFC 1321 lists |
| `Md5.DigestBytes` | md5.c:264-274 | sixteen bytes, from the low-order byte of the first word on |
| `Md5.Context.Update` | md5.c:108-140 | the bytes seen so far are the old ones and the chunk |
| `Md5.Context.Final` | md5.c:145-168 | the digest of all bytes seen, padded as in sections 3.1 and 3.2 of RFC 1321; the context is wiped |
| `Md5.HashChunks` | md5.c:108-168 | any chunking gives the digest of the whole |
| `Md5.ComputeHash` | md5.c:289-297 | one update with everything gives that digest |
| `Rhash.Context.Update` | packet_plugin/rjv3/rjv3_hashes/rjmd5.c:165-200 | the bytes seen so far are the old ones and the chunk, aligned or not |
| `Rhash.MarkedWord` | packet_plugin/rjv3/rjv3_hashes/rjmd5.c:216-217 | mask and exclusive or leave the message bytes, the marker and zeros in memory |
| `Rhash.Context.MarkWord` | packet_plugin/rjv3/rjv3_hashes/rjmd5.c:208-217 | the word-level marking is the byte-level marking |
| `Rhash.LengthHalves` | packet_plugin/rjv3/rjv3_hashes/rjmd5.c:231-232 | the two shifted words are the 64-bit bit length, in either byte order |
| `Rhash.Context.Md5Final` | packet_plugin/rjv3/rjv3_hashes/rjmd5.c:208-236 | padding in words is padding in bytes |
| `Rhash.Context.Sha1Final` | packet_plugin/rjv3/rjv3_hashes/rjsha1.c:167-196 | as above with a big-endian length and zeros to a word boundary first |
| `Rhash.Context.TigerFinal` | packet_plugin/rjv3/rjv3_hashes/rjtiger.c:204-231 | marker 0x01, or 0x80 for Tiger2, and a little-endian length |
| `Rhash.Context.WhirlpoolFinal` | packet_plugin/rjv3/rjv3_hashes/rjwhirlpool.c:191-217 | thirty-two length bytes, of which eight are used |
| `Rhash.HashChunks` | packet_plugin/rjv3/rjv3_hashes/rjwhirlpool.c:147-217 | for each of the four contexts any chunking gives the fold over the padded whole |
| `Rhash.PaddedLayout` | packet_plugin/rjv3/rjv3_hashes/rjwhirlpool.c:191-217 | for each of the five paddings: the marker, the bytes reserved (32 or 8), and the byte order of the length |
| `Rhash.PaddedIsInjective` | packet_plugin/rjv3/rjv3_hashes/rjsha1.c:167-196 | no two messages below 2^61 bytes are padded to the same blocks |
| `Ripemd.Transform` | packet_plugin/rjv3/rjv3_hashes/rjripemd128.c:49-242 | the block loop is the fold over those blocks |
| `Ripemd.Context.Update` | packet_plugin/rjv3/rjv3_hashes/rjripemd128.c:244-269 | the bytes seen so far are the old ones and the chunk |
| `Ripemd.Context.Finish` | packet_plugin/rjv3/rjv3_hashes/rjripemd128.c:271-299 | the fold over the padded message, and the context stays as it is |
| `Ripemd.PaddedLayout` | packet_plugin/rjv3/rjv3_hashes/rjripemd128.c:271-299 | the marker 0x80 and the little-endian bit length |
| `Ripemd.HashChunks` | packet_plugin/rjv3/rjv3_hashes/rjripemd128.c:244-299 | each digest taken on the way is that of the bytes so far |
| `Tiger.LoopedIsUnrolled` | packet_plugin/rjv3/rjv3_hashes/rjtiger.c:126-145 | the loop that renames a, b, c and the three passes written out agree |
| `Tiger.RoundIA32` | packet_plugin/rjv3/rjv3_hashes/rjtiger.c:60-72 | 32-bit shifts pick the same bytes as 64-bit ones |
| `Tiger.KeyScheduleUndone` | packet_plugin/rjv3/rjv3_hashes/rjtiger.c:84-101 | the key schedule can be undone word by word |
| `Tiger.RoundUndone` | packet_plugin/rjv3/rjv3_hashes/rjtiger.c:46-57 | a and c before a round, and what b was multiplied from, follow from what the tables hold for the bytes of c |
| `Tiger.FeedForwardUndone` | packet_plugin/rjv3/rjv3_hashes/rjtiger.c:147-150 | the last step can be undone |
| `Tiger.MachineIsLawful` | packet_plugin/rjv3/rjv3_hashes/rjtiger.c:46-101 | 64-bit words undo sums, differences and exclusive ors |
| `Tiger.ProcessBlock` | packet_plugin/rjv3/rjv3_hashes/rjtiger.c:109-151 | either form computes the same state, for all states, blocks and tables |
| `ByteOrder.CopyStrToWords` | packet_plugin/rjv3/rjv3_hashes/byte_order.c:74-112 | the aligned word copy and the byte loop do the same |
| `ByteOrder.CopyWordsToStr` | packet_plugin/rjv3/rjv3_hashes/byte_order.c:122-136 | both branches read the bytes back and change nothing behind them |
| `ByteOrder.WordsAreTurned` | packet_plugin/rjv3/rjv3_hashes/byte_order.c:74-112 | every byte lands in its own word, at the mirrored place |
| `ByteOrder.CopyConcat` | packet_plugin/rjv3/rjv3_hashes/byte_order.c:74-112 | copying two pieces one behind the other is copying them together |
| `ByteOrder.ReadBackUndoesCopy` | packet_plugin/rjv3/rjv3_hashes/byte_order.c:99-136 | reading back undoes copying, for every length |
| `ByteOrder.CopyStaysInItsWords` | packet_plugin/rjv3/rjv3_hashes/byte_order.c:74-112 | words outside the ones reached keep their bytes |
| `Gf2.FeedDivides` | packet_plugin/rjv3/rjv3_hashes/rjcrc16.c:82-88 | the bit-serial register holds the remainder of long division |
| `Crc16.TableIsFeed` | packet_plugin/rjv3/rjv3_hashes/rjcrc16.c:47-80 | each of the 256 table entries is the register after its index |
| `Crc16.TableStepFeeds` | packet_plugin/rjv3/rjv3_hashes/rjcrc16.c:84-86 | one lookup does what eight bits do |
| `Crc16.CrcIsRemainder` | packet_plugin/rjv3/rjv3_hashes/rjcrc16.c:82-88 | the checksum is the remainder of the message and sixteen zeros by x^16 + x^12 + x^5 + 1 |
| `Crc16.Compute` | packet_plugin/rjv3/rjv3_hashes/rjcrc16.c:82-88 | the loop computes it; a negative length reads nothing |
| `Crc16.CrcIsLinear` | packet_plugin/rjv3/rjv3_hashes/rjcrc16.c:82-88 | linear on messages of one length |
| `Crc16.BurstsAreDetected` | packet_plugin/rjv3/rjv3_hashes/rjcrc16.c:82-88 | messages that differ only inside sixteen bits have different checksums |
| `Crc16.CheckedMeansZero` | packet_plugin/rjv3/packet_plugin_rjv3_priv.c:370-370 | a message with two more bytes has checksum zero if and only if they are its checksum |
| `Scramble.ReversesBits` | util/misc.c:81-88 | bit k becomes bit 7 - k |
| `Scramble.BothReverseAndComplement` | packet_plugin/rjv3/rjv3_hashes/rjencode.c:3-23 | encoding and decoding a byte are reversal and complement, in either order |
| `Scramble.BufferRoundTrip` | packet_plugin/rjv3/rjv3_hashes/rjencode.c:3-23 | mutual inverses on every buffer |
| `Scramble.Encode` | packet_plugin/rjv3/rjv3_hashes/rjencode.c:3-12 | the loop encodes in place and touches nothing behind |
| `Scramble.Decode` | packet_plugin/rjv3/rjv3_hashes/rjencode.c:14-23 | the loop decodes in place and touches nothing behind |
| `Scramble.BlockLayout` | packet_plugin/rjv3/packet_plugin_rjv3_priv.c:350-368 | magic, DHCP flag, and the lease or zeros, for each mode |
| `Scramble.PrivateBlock` | packet_plugin/rjv3/packet_plugin_rjv3_priv.c:356-373 | the block decodes to magic, flag and lease, and its checksum over all 23 bytes is zero |
| `Scramble.HighByteFirst` | packet_plugin/rjv3/packet_plugin_rjv3_keepalive.c:98-101 | the bytes go out from the highest to the lowest, reversed and complemented |
| `Scramble.TwistedRoundTrip` | packet_plugin/rjv3/packet_plugin_rjv3_keepalive.c:98-106 | the number a keep-alive frame carries is read back by the code that reads the server's key |
| `EapMachine.Supplicant.SwitchToState` | eap_state_machine.c:343-373 | the nested transitions end and are the specification's |
| `EapMachine.Supplicant.RecvHandler` | eap_state_machine.c:233-269 | one received frame, through the plugin and the machine |
| `EapMachine.Supplicant.PluginProcessSuccess` | packet_plugin/rjv3/packet_plugin_rjv3.c:218-263 | the plugin's reaction to an EAP-Success |
| `EapMachine.Supplicant.StartSecondaryAuth` | packet_plugin/rjv3/packet_plugin_rjv3_priv.c:512-537 | one try for the lease |
| `EapMachine.Supplicant.AlarmFires` | eap_state_machine.c:196-199 | a pending alarm of the machine or the plugin |
| `EapMachine.TableHasEveryState` | eap_state_machine.c:42-53 | every state has an entry in the table |
| `EapRuns.InvAlways` | eap_state_machine.c:181-269 | round, failures, state and pending restarts are functions of the events, in every reachable state |
| `EapRuns.NullIsNeverCalled` | eap_state_machine.c:42-53 | no entry that is NULL is ever called |
| `EapRuns.CountersStayInRange` | eap_state_machine.c:181-224 | the round is between one and the configured one, failures stay below the maximum |
| `EapRuns.RestartsBalanceFailures` | eap_state_machine.c:196-224 | pending restarts are the failures handled minus the restarts that fired |
| `EapRuns.StateFollowsEvents` | eap_state_machine.c:343-373 | the state is the one the last event calls for, SUCCESS after any EAP-Success |
| `EapRuns.PromiseKeptOnLastRound` | include/eap_state_machine.h:17-21 | after a success the state is the promised one if and only if the last required round is done |
| `EapRuns.FirstOfTwoSuccesses` | eap_state_machine.c:343-373 | a run, from the boot, whose first of two rounds succeeds: the second EAPOL-Start is sent, the round is the second and the state is SUCCESS |
| `EapRuns.FinishesOnConfiguredSuccess` | eap_state_machine.c:181-194 | the machine finishes exactly on every configured-th success since the last restart |
| `EapRuns.FailureExitsOrRestarts` | eap_state_machine.c:201-224 | exactly when an EAP-Failure ends the program, and which restart it sets otherwise |
| `EapRuns.ResponsesAnswerTheRequest` | eap_state_machine.c:103-154 | a response goes to the sender and repeats the identifier |
| `EapRuns.RestartStartsOver` | eap_state_machine.c:196-199 | one EAPOL-Start to the group address; rounds and failures are forgotten |
| `EapRuns.CountsHalves` | packet_plugin/rjv3/packet_plugin_rjv3.c:218-269 | in double authentication the plugin's counter is the number of halves done, none or one |
| `EapRuns.FirstHalfGoesOn` | packet_plugin/rjv3/packet_plugin_rjv3.c:218-244 | in every run the first success of a double authentication sends the second start, waits five seconds more, or keeps alive |
| `EapRuns.OtherSuccessesKeepAlive` | packet_plugin/rjv3/packet_plugin_rjv3.c:245-262 | any other success keeps alive if and only if the message was understood, and a second half forgets the tries |
| `EapRuns.SuccessSends` | packet_plugin/rjv3/packet_plugin_rjv3.c:218-262 | exactly what a success sends and in which order, and when it ends the program |
| `EapRuns.FailureForgetsHalves` | packet_plugin/rjv3/packet_plugin_rjv3.c:265-269 | after a failure neither a half nor a try is counted |
| `EapRuns.WaitMakesOneTry` | packet_plugin/rjv3/packet_plugin_rjv3_priv.c:512-537 | a wait that ends leaves the list and makes one try |
| `EapRuns.OtherFramesAreIgnored` | eap_state_machine.c:233-269 | other frames change nothing but the server's address |
| `EapRuns.LeaseIsNeverSent` | packet_plugin/rjv3/packet_plugin_rjv3_priv.c:350-368 | in double authentication no frame carries the lease |
| `EapRuns.ChainEndsOneWay` | packet_plugin/rjv3/packet_plugin_rjv3_priv.c:512-537 | at most the configured tries and one more, ending in the second EAPOL-Start or in the keep-alive |
| `Gbconv.IndexInTable` | util/gbconv.c:3081-3097 | after a lead byte every index is below 0x6000 |
| `Gbconv.IndexIsInjective` | util/gbconv.c:3081-3097 | no two valid pairs share an entry |
| `Gbconv.NarrowRows` | util/gbconv.c:3084-3089 | second bytes 0x40 to 0x7F select rows of 64 from the start of the table |
| `Gbconv.WideRows` | util/gbconv.c:3090-3096 | second bytes from 0x80 on select rows of 128 from 0x2000 on |
| `Gbconv.TextConverts` | util/gbconv.c:3117-3174 | well-formed text gives, character by character, what its rows and columns of the table hold |
| `Gbconv.TextIsPrinted` | util/gbconv.c:3099-3178 | a reader of UTF-8 gets exactly that from the output |
| `Gbconv.BrokenPair` | util/gbconv.c:3130-3135 | a lead byte in front of a NUL is a question mark and ends the text |
| `Gbconv.Utf8RoundTrip` | util/gbconv.c:3145-3172 | a reader of section 3 of RFC 3629 gets the code points back if and only if none is a surrogate |
| `Gbconv.OutputIsReadable` | util/misc.c:107-119 | the output fits four bytes a byte if and only if there is one, ends in its only NUL, and reads as the code points |
| `Gbconv.GbConv8` | util/gbconv.c:3099-3178 | the result is the length of the whole output; the destination gets what fits and nothing behind |
| `Conf.ConfParser.ParseNow` | util/conf_parser.c:75-110 | the pairs of the file are appended to the list |
| `Conf.ParseLine` | util/conf_parser.c:83-105 | cutting up the line buffer in place gives the pair of the line |
| `Conf.ConfParser.SaveFile` | util/conf_parser.c:153-171 | every pair as a line; an empty list is refused |
| `Conf.ParsedIsOk` | util/conf_parser.c:75-110 | whatever the file, every pair read is one a line can hold |
| `Conf.DecoratedLine` | util/conf_parser.c:35-50 | blanks in front of the key and behind the value do not count |
| `Conf.OtherLines` | util/conf_parser.c:83-104 | comments and lines without an equals sign add nothing |
| `Conf.NulEndsTheLine` | util/conf_parser.c:83-104 | what stands behind a NUL in a line is not read |
| `Conf.SaveRoundTrip` | util/conf_parser.c:75-171 | a list survives saving and parsing if and only if each pair is one a line can hold |
| `Conf.RewritingIsStable` | util/conf_parser.c:75-171 | saving what was read from any file and reading it again changes nothing |
| `RjOption.HexRoundTrip` | util/misc.c:28-44 | two digits written for a byte are read as that byte |
| `RjOption.DigitsInAnyCase` | util/misc.c:28-38 | digits count the same in upper and in lower case |
| `RjOption.MarkIsFirstLetter` | packet_plugin/rjv3/packet_plugin_rjv3.c:42-95 | with two tokens and a third, the option replaces if and only if the third begins with r |
| `RjOption.TextExample` | packet_plugin/rjv3/packet_plugin_rjv3.c:296-330 | the text of a modification and of an addition, letter by letter |
| `RjOption.StrTok` | packet_plugin/rjv3/packet_plugin_rjv3.c:42-95 | the next token, its NUL in place, and where the next call looks |
| `RjOption.Options.AppendCmdlineOpt` | packet_plugin/rjv3/packet_plugin_rjv3.c:42-95 | the option goes to the list its mark names, or is refused |
| `RjOption.TextFits` | packet_plugin/rjv3/packet_plugin_rjv3.c:296-308 | the text and its NUL are four bytes shorter than what is allocated |
| `RjOption.SaveOneProp` | packet_plugin/rjv3/packet_plugin_rjv3.c:296-330 | the text and its NUL in the buffer allocated for it |
| `RjOption.EmptyContent` | packet_plugin/rjv3/packet_plugin_rjv3.c:42-95 | without content the option is refused, or read as the addition of one byte |
| `RjOption.SavedOptionRoundTrip` | packet_plugin/rjv3/packet_plugin_rjv3.c:296-330 | the text gives back type, content and list if and only if the content has 1 to 100 bytes |
| `SavedOptions.SavedOptionsReload` | packet_plugin/rjv3/packet_plugin_rjv3.c:284-346 | through the file the options come back if and only if each has 1 to 43 bytes, 42 for a modification |
| `SavedOptions.LongModification` | util/conf_parser.c:75-110 | a longer modification comes back as an addition of its first 43 bytes |

## Left out

- Network drivers, `net_util.c`, `pid_lock.c`, logging, option parsing by getopt, `config.c`, daemonising and `system()`: operating-system plumbing.
- The rounds of the hash functions other than Tiger, their tables, the GBK table and the computation of the V4 hash and the password hash: constants with no specification to compare with. They are parameters.
- `if_impl` and the interface list behind the lease: the lease is a parameter, and so is whether a frame could be sent.
- Allocation failures, freeing and the lifetime of captured frames.
- The state watchdog: the code that arms it is commented out, so it never runs.
- The keep-alive frames themselves and `rjv3_keepalive_reset`: the model counts how often keeping alive is started.
- A signal that arrives in the middle of `schedule_alarm`, alarms of zero or fewer seconds, and overflow of event ids.
- Reading outside the given memory: `Parse` answers Overrun where the source would read past the bytes modelled.
- `remove_rjv3_prop`, `find_rjv3_prop`, `append_rjv3_prop_to_frame`, `list_destroy`, `conf_parser_get_value`, `conf_parser_set_value`, `my_itoa`, the printer plugin and `packet_builder.c`: they would add only easy members.
- The common fields a frame's properties are made from, and the program name, version and magic that follow the private header.
- LinkedList.List.Traverse: the function may only update the content it is given; the traversal whose callbacks change the lists is `SchedAlarm.Scheduler.FireAll`.
- Md5.Context.Update: requires chunks of at most 2^32 - 64 bytes, because the loop guard wraps beyond.
- Rjv3Codec.AppendListToBuffer: requires properties made by `append_rjv3_prop` with at most 253 bytes (no other code makes one, so no other header type occurs), and memory in front of the buffer if a property does not fit there.
- Rjv3Modify.AppendTrailer: requires room for both lists in the buffer and the frame; what lists that do not fit leave behind is stated for one list (`Rjv3Codec.AppendListToBuffer`).
- RjOption.SaveOneProp: requires a length field of at least two that does not exceed the content; below two the source's unsigned loop bound wraps, above it reads behind the content.
- Rjv3Modify.OwnList.ModifyProp: for a length above the content's the source reads behind the content; the model keeps the content.
- Rhash.Context.Md5Final: returns the state; storing its words in the result bytes is not modelled.
- Rhash.Context.Sha1Final: returns the state; storing its words in the result bytes is not modelled.
- Rhash.Context.TigerFinal: returns the state; storing its words in the result bytes is not modelled.
- Rhash.Context.WhirlpoolFinal: returns the state; storing its words in the result bytes is not modelled.
- Ripemd.Context.Finish: returns the state; storing its words in the digest bytes is not modelled.
- Gbconv.GbConv8: requires one readable byte behind the source, because a lead byte in the last place reads it.
- EapRuns.ChainEndsOneWay: no other event comes between the tries; `EapRuns.InvAlways` covers any order.
- ByteOrder.CopyStrToWords: the swap instruction is its effect on the bytes in memory of a little-endian machine.
