# Verified models of the device SDK and its demo

The repository is a C SDK that connects a device to a cloud (MQTT, CoAP, shadow, OTA), a demo firmware, and a
Python tool that builds flash partitions. This project states in Dafny what its self-contained cores do and proves
properties of them that span calls, runs and formats:

* **AES** (`AesField` … `AesCbc`, `AesFips`): the table generator, the key schedules, the T-table cipher with the
  equivalent inverse cipher, CBC and the padding wrapper. Nothing is assumed of the tables: they are proved to be what
  the generator leaves. The end is that the code computes FIPS 197 as the standard writes it on bytes, and that sealing
  and opening returns the data.
* **MQTT** (`MqttIds`, `MqttPubs`, `MqttSubs`, `MqttClient`, `MqttLink`, `MqttCodec`, `TopicMatch`): packet ids, the
  two lists of requests that wait for an acknowledgement, the ten-slot subscription table with the ownership of its
  topic strings, keep-alive and reconnection, the PUBLISH codec and the topic matcher.
* **CoAP** (`CoapCodec`, `CoapMessage`, `CoapParser`, `CoapExchange`, `CoapClient`): option list, printer and parser,
  and the life of a confirmable request.
* **Lists** (`UtilsList`): the doubly linked list on the heap, and both ways to remove nodes while walking it.
* **NVS partitions** (`NvsFormat`, `NvsReader`, `NvsPartition`, `NvsGenerator`, `NvsFile`): pages, entries, blobs cut
  over pages, and whole images, against a reader that sees only bytes.
* **Digests, Base64, OTA, CRC** (`Digest`, `Base64`, `OtaHttp`, `OtaClient`, `UartCrc`).

Where the source updates state in place the model does too: classes and arrays with methods, whose contracts tie them
to functions on values, and lemmas about those functions. What a whole run does to one publish, request or exchange is
stated a second time by the events alone (`FateOf` in three modules), and formats a second time byte by byte. Some
files use small shared modules (`Buffers`, `Arithmetic`, `Octets`, all in `Buffers.dfy`). Clocks, the network, message
texts and what callbacks do are parameters: a lemma over all of them is a statement about every run.

In a number of places the code does not do what its comments or the standards suggest. The model follows the code, and
a lemma says exactly when the expected property holds:

* `utils_aes_cbc` pads the output buffer but encrypts the input buffer (`AesCrypt.PaddingReadBack`).
* A second SUBACK or UNSUBACK for one request frees a string that was handed on or freed already, and UNSUBACK
  frees an uninitialised pointer for an unknown id (`MqttSubs.SubackOwnership`, `MqttSubs.UnsubackOwnership`, with
  runs in `MqttSubs.SecondSubackBreaks` and `MqttSubs.UnknownUnsubackBreaks`).
* Unsubscribing with a filter that contains `/#` or `/+` releases every slot (`MqttSubs.ReleaseSlots`).
* A link that was lost while automatic reconnection was off, and for which it is then switched on, is tried again
  without end (`MqttLink.GivesUpExactly`, reached in `MqttLink.ZeroIntervalReached`).
* `get_mqtt_packet_len` is one too large at four lengths (`MqttCodec.PacketLenBounds`).
* The matcher accepts too much behind `#`, and where a name ends in an empty level (`TopicMatch.MatcherExact`).
* The parser of a PUBLISH reads the packet id without looking at the end of the packet (`MqttCodec.ReadsPastEnd`,
  `MqttCodec.ShortPacketReadsPastEnd`).
* The size check of a CoAP option looks at its number where its length is meant (`CoapMessage.PrecheckRight`,
  `CoapMessage.OverrunsExactly`).
* Texts of 3969 to 4000 bytes pass the length check of the partition tool but fit no page, and a blob that meets a
  page whose entries are all taken ends in an assertion (`NvsGenerator.LongTextNeverFits`,
  `NvsGenerator.FullPageStopsBlobs`).
* A page that is full keeps the state "active" in its header (`NvsFormat.LayoutFront`), and the last entry of a page
  never ends a text (`NvsGenerator.StaysExactly`).
* The error codes of the HTTP client overlap those the OTA client tests for, so a response whose first line is cut
  short is reported as a missing file, and a closed connection as a timeout (`OtaHttp.MissingFileMeans`,
  `OtaHttp.RefusalMeans`, `OtaHttp.TimeoutMeans`, with an input in `OtaHttp.OneByteIsMissingFile`).

## Model

| member | source | states |
|---|---|---|
| AesField.FullPeriod | qcloud_iot_c_sdk/sdk_src/utils_aes.c:431-436 | no power of three below the 255th is one, so the loop that fills pow and log meets every non-zero byte |
| AesField.HasLog | qcloud_iot_c_sdk/sdk_src/utils_aes.c:431-436 | every non-zero byte is a power of three with exponent 1 to 255: log is filled completely |
| AesField.LogUnique | qcloud_iot_c_sdk/sdk_src/utils_aes.c:431-436 | and with only one such exponent |
| AesField.XTimeIsTheMacro | qcloud_iot_c_sdk/sdk_src/utils_aes.c:417-417 | doubling with the reduction added as a product is the macro that adds it by a test of the top bit |
| AesSpec.MulLog | qcloud_iot_c_sdk/sdk_src/utils_aes.c:418-418 | adding logarithms, as MUL does, is multiplication in the field of section 4.2 of FIPS 197 |
| AesSpec.InvIsInverse | qcloud_iot_c_sdk/sdk_src/utils_aes.c:455-455 | pow[255 - log[i]] is the multiplicative inverse of i |
| AesSpec.F8Laws | qcloud_iot_c_sdk/sdk_src/utils_aes.c:417-418 | XTIME and MUL make a commutative ring in which the cipher's algebra holds |
| AesSpec.AffineInverse | qcloud_iot_c_sdk/sdk_src/utils_aes.c:457-461 | the affine step of the S-box (section 5.1.1 of FIPS 197) is undone by the one of section 5.3.2 |
| AesSpec.SboxInverse | qcloud_iot_c_sdk/sdk_src/utils_aes.c:463-464 | the two S-boxes undo each other in both directions |
| AesAlgebra.MixInverse | qcloud_iot_c_sdk/sdk_src/utils_aes.c:489-497 | InvMixColumns undoes MixColumns, for every column over every ring with these laws |
| AesAlgebra.InvMixAdds | qcloud_iot_c_sdk/sdk_src/utils_aes.c:687-696 | InvMixColumns of a sum is the sum of InvMixColumns: what lets the round keys be transformed instead of the state |
| AesGen.PowAndLog | qcloud_iot_c_sdk/sdk_src/utils_aes.c:431-436 | the first loop leaves the powers of three and their logarithms, though the last round overwrites log[1] |
| AesGen.RoundConstants | qcloud_iot_c_sdk/sdk_src/utils_aes.c:441-445 | RCON[i] is the i-th round constant of FIPS 197 |
| AesGen.SboxTables | qcloud_iot_c_sdk/sdk_src/utils_aes.c:450-465 | FSb and RSb are the S-box and the inverse S-box of FIPS 197, whatever the arrays held before |
| AesGen.GenTables | qcloud_iot_c_sdk/sdk_src/utils_aes.c:422-500 | after aes_gen_tables all eleven tables hold the values the cipher's equations need |
| AesGen.InitTables | qcloud_iot_c_sdk/sdk_src/utils_aes.c:572-578 | so no assumption about the tables is left: generated tables satisfy every law the cipher is proved from |
| AesKeys.SetkeyEnc | qcloud_iot_c_sdk/sdk_src/utils_aes.c:555-651 | the buffer holds the model's key schedule for 128, 192 and 256 bits, which AesFips.KeyExpansion proves to be that of FIPS 197; any other size is refused |
| AesKeys.KeyScheduleStart | qcloud_iot_c_sdk/sdk_src/utils_aes.c:582-585 | that expansion begins with the words of the key |
| AesKeys.KeyScheduleSteps | qcloud_iot_c_sdk/sdk_src/utils_aes.c:587-648 | and its later words satisfy the recurrence on words, with the extra substitution for 256 bits; AesFips.KeyStep says it byte by byte |
| AesFips.RoundConstants | qcloud_iot_c_sdk/sdk_src/utils_aes.c:441-445 | the ten round constants of section 5.2 of FIPS 197, as numbers |
| AesFips.SboxBits | qcloud_iot_c_sdk/sdk_src/utils_aes.c:455-463 | each bit of the S-box is the sum of section 5.1.1 of FIPS 197 of bits of the inverse |
| AesFips.KeyStep | qcloud_iot_c_sdk/sdk_src/utils_aes.c:587-648 | byte by byte: every word from the key on is the word nk before plus, at a multiple of nk, the rotated bytes through the S-box and the round constant, halfway between multiples of eight for 256 bits the bytes through the S-box unrotated, and elsewhere the word before |
| AesFips.KeyExpansion | qcloud_iot_c_sdk/sdk_src/utils_aes.c:555-651 | so every word of the expanded key is that of section 5.2 of FIPS 197, written on bytes and independently of the code |
| AesRounds.DecryptEncrypt | qcloud_iot_c_sdk/sdk_src/utils_aes.c:762-882 | the equivalent inverse cipher with transformed keys undoes the cipher, for every state, any number of rounds and every list of round keys (section 5.3.5 of FIPS 197) |
| AesState.StepsLaws | qcloud_iot_c_sdk/sdk_src/utils_aes.c:712-756 | the steps of AES on column words satisfy the laws that theorem needs |
| AesBlock.EncryptState | qcloud_iot_c_sdk/sdk_src/utils_aes.c:766-806 | the unrolled loops over the four T-tables compute on the loaded block the rounds that AesFips.CipherIs proves to be those of FIPS 197 |
| AesBlock.DecryptState | qcloud_iot_c_sdk/sdk_src/utils_aes.c:834-874 | the same for the equivalent inverse cipher |
| AesBlock.InvertKeys | qcloud_iot_c_sdk/sdk_src/utils_aes.c:680-701 | the reversed copy with InvMixColumns, looked up as RT(FSb(.)), is the schedule of the equivalent inverse cipher |
| AesBlock.SetkeyDec | qcloud_iot_c_sdk/sdk_src/utils_aes.c:658-707 | the buffer holds that schedule for every key of a legal size; a refused size changes neither rounds nor buffer |
| AesCrypt.CryptEcb | qcloud_iot_c_sdk/sdk_src/utils_aes.c:897-912 | one block through the cipher of the mode, also in place; nothing outside the sixteen output bytes changes |
| AesCrypt.AesRoundTrip | qcloud_iot_c_sdk/sdk_src/utils_aes.c:555-882 | for every key of 128, 192 or 256 bits, decryption with the setkey_dec schedule undoes encryption with the setkey_enc schedule on every block |
| AesFips.CipherIs | qcloud_iot_c_sdk/sdk_src/utils_aes.c:555-815 | with the setkey_enc schedule every block becomes the cipher of section 5.1 of FIPS 197 of it, for every key of 128, 192 or 256 bits, where that cipher is written on bytes and independently of the code |
| AesFips.DecipherIs | qcloud_iot_c_sdk/sdk_src/utils_aes.c:658-882 | and with the setkey_dec schedule that cipher is undone |
| Cbc.EncryptBlock | qcloud_iot_c_sdk/sdk_src/utils_aes.c:956-970 | block j of the ciphertext is the cipher of plaintext block j plus ciphertext block j - 1, or the vector (section 6.2 of NIST SP 800-38A) |
| Cbc.DecryptEncrypt | qcloud_iot_c_sdk/sdk_src/utils_aes.c:939-970 | decryption undoes encryption for every invertible block cipher, every vector and every multiple of 16 bytes |
| Cbc.EncryptConcat | qcloud_iot_c_sdk/sdk_src/utils_aes.c:956-970 | two buffers encrypted in turn, the second with the vector the first left, are the encryption of their concatenation |
| Cbc.DecryptConcat | qcloud_iot_c_sdk/sdk_src/utils_aes.c:939-955 | the same for decryption |
| AesCrypt.CryptCbc | qcloud_iot_c_sdk/sdk_src/utils_aes.c:918-973 | the output is the CBC encryption or decryption of the input, also in place, and iv ends as the last ciphertext block; a length that is no multiple of 16 changes nothing |
| AesCrypt.EncryptPadded | qcloud_iot_c_sdk/sdk_src/utils_aes.c:985-1002 | what utils_aes_cbc encrypts: the input buffer, so the padding zeros only count when it is the output buffer too; the error cases change nothing |
| AesCrypt.PaddingReadBack | qcloud_iot_c_sdk/sdk_src/utils_aes.c:1000-1012 | reading back gives the data and its zeros exactly if the bytes behind the data in the input buffer were zeros |
| AesCrypt.DecryptData | qcloud_iot_c_sdk/sdk_src/utils_aes.c:1003-1012 | the decrypting half, with its error cases |
| AesCrypt.SealAndOpen | qcloud_iot_c_sdk/sdk_src/utils_aes.c:975-1024 | from uninitialised tables to the data again: table generation, both key schedules, in-place encryption and in-place decryption return the data and 1 to 16 zeros, and equal vectors |
| UtilsList.List.RPush | qcloud_iot_c_sdk/sdk_src/utils_list.c:68-86 | refines appending to a sequence |
| UtilsList.List.LPush | qcloud_iot_c_sdk/sdk_src/utils_list.c:135-153 | refines prepending |
| UtilsList.List.RPop | qcloud_iot_c_sdk/sdk_src/utils_list.c:91-108 | refines taking the last element, whose links are cleared; nothing to take leaves the empty list |
| UtilsList.List.LPop | qcloud_iot_c_sdk/sdk_src/utils_list.c:113-130 | refines taking the first element |
| UtilsList.List.Remove | qcloud_iot_c_sdk/sdk_src/utils_list.c:220-233 | refines leaving one element out, wherever it stands |
| UtilsList.Iterator.Next | qcloud_iot_c_sdk/sdk_src/utils_list.c:262-269 | yields the node the iterator stood on and moves to its neighbour as the links are at that moment |
| UtilsList.Find | qcloud_iot_c_sdk/sdk_src/utils_list.c:158-184 | the first node from the head whose value matches, or none |
| UtilsList.At | qcloud_iot_c_sdk/sdk_src/utils_list.c:189-215 | element index from the head, or, for a negative index, from the tail; nothing outside |
| UtilsList.SweepDeferred | qcloud_iot_c_sdk/sdk_src/mqtt_client_yield.c:301-363 | the sweep that removes a node after the iterator passed it visits each node once from the tail and leaves exactly those to be kept |
| UtilsList.SweepImmediate | qcloud_iot_c_sdk/sdk_src/shadow_client_manager.c:484-508 | the sweep whose callback removes the current node does the same |
| UtilsList.KeepMeans | qcloud_iot_c_sdk/sdk_src/shadow_client_manager.c:478-512 | what is left is exactly the nodes to be kept |
| UtilsList.KeepInOrder | qcloud_iot_c_sdk/sdk_src/shadow_client_manager.c:478-512 | in their order |
| UtilsList.ReverseAt | qcloud_iot_c_sdk/sdk_src/utils_list.c:238-269 | the walk from the tail visits every node exactly once |
| MqttIds.IdClosedForm | qcloud_iot_c_sdk/sdk_src/mqtt_client_common.c:62-72 | the n-th id handed out, in closed form |
| MqttIds.IdNeverZero | qcloud_iot_c_sdk/sdk_src/mqtt_client_common.c:62-72 | no id is zero (section 2.3.1 of MQTT 3.1.1) |
| MqttIds.IdsRepeat | qcloud_iot_c_sdk/sdk_src/mqtt_client_common.c:62-72 | two ids are equal exactly if a multiple of 65535 were handed out between them |
| MqttPubs.AckMarksOne | qcloud_iot_c_sdk/sdk_src/mqtt_client_common.c:824-866 | a PUBACK marks at most one waiting publish while fewer than 65535 ids were issued since the oldest |
| MqttPubs.AckMarksTwo | qcloud_iot_c_sdk/sdk_src/mqtt_client_common.c:824-866 | the bound is exact: a client just created publishes, hands out n - 1 ids to other requests and publishes again; then a PUBACK for the second publish marks the first too exactly if n is a multiple of 65535 |
| MqttPubs.SweepMembers | qcloud_iot_c_sdk/sdk_src/mqtt_client_yield.c:314-363 | the timeout sweep keeps exactly the publishes that are not acknowledged and, while the link is up, not out of time |
| MqttPubs.SweepIncreasing | qcloud_iot_c_sdk/sdk_src/mqtt_client_yield.c:314-363 | in their order |
| MqttPubs.SweepRecords | qcloud_iot_c_sdk/sdk_src/mqtt_client_yield.c:314-363 | each other one is recorded, as acknowledged or as timed out by its mark |
| MqttPubs.SweepSpares | qcloud_iot_c_sdk/sdk_src/mqtt_client_yield.c:314-363 | and no other publish's record is touched |
| MqttPubs.SweepRaises | qcloud_iot_c_sdk/sdk_src/mqtt_client_yield.c:337-362 | a timeout is raised for an id exactly if one of its nodes is not acknowledged, out of time and the link is up |
| MqttPubs.StepKeeps | qcloud_iot_c_sdk/sdk_src/mqtt_client_publish.c:74-124 | every call keeps the list in order of issue, at most 20 long, and each publish either waiting or gone once |
| MqttPubs.RunKeeps | qcloud_iot_c_sdk/sdk_src/mqtt_client_yield.c:292-372 | over every run a publish that entered the list waits or left it once for one reason, and one marked by a PUBACK never leaves by timeout |
| MqttPubs.ClientKeeps | qcloud_iot_c_sdk/sdk_src/mqtt_client_yield.c:292-372 | the same from the creation of the client on, at any point of any run: at most 20 wait, each publish that entered waits or has left, and nothing later changes how it left |
| MqttPubs.PublishFate | qcloud_iot_c_sdk/sdk_src/mqtt_client_yield.c:292-372 | over every run each waiting publish has the fate that the events alone decide: a PUBACK with its id marks it, the next sweep lets it go as acknowledged, and a sweep at or past its deadline on a live link lets an unmarked one go as timed out |
| MqttPubs.ClientFate | qcloud_iot_c_sdk/sdk_src/mqtt_client_publish.c:74-124 | so it is for every publish of a client that finds room and is sent, from any point of any run on, under the next id |
| MqttPubs.NeverFull | qcloud_iot_c_sdk/sdk_src/mqtt_client_publish.c:88-94 | a client whose publishes are acknowledged and swept accepts any number of them, each gone as acknowledged |
| MqttClient.Client.GetNextPacketId | qcloud_iot_c_sdk/sdk_src/mqtt_client_common.c:62-72 | returns the id of that closed form |
| MqttClient.Client.Publish | qcloud_iot_c_sdk/sdk_src/mqtt_client_publish.c:295-376 | the publish call against that state: topic too long, QoS 2, no connection, list full, send failure and success |
| MqttClient.Client.HandlePuback | qcloud_iot_c_sdk/sdk_src/mqtt_client_common.c:824-866 | marks every waiting publish with the id and notifies |
| MqttClient.Client.PubInfoProc | qcloud_iot_c_sdk/sdk_src/mqtt_client_yield.c:292-372 | the sweep over the list refines the specified one, with its notices in order |
| MqttClient.PublishTimeoutsTold | qcloud_iot_c_sdk/sdk_src/mqtt_client_yield.c:337-362 | the sweep announces a timeout for exactly the ids of publishes that are not acknowledged and out of time on a live link |
| MqttSubs.SubackOwnership | qcloud_iot_c_sdk/sdk_src/mqtt_client_common.c:977-1035 | SUBACK keeps every topic string owned once exactly if it acknowledges a request that still waits, an unknown id, or a string nothing owns |
| MqttSubs.UnsubackOwnership | qcloud_iot_c_sdk/sdk_src/mqtt_client_common.c:1070-1094 | UNSUBACK does exactly under the same condition, where for an unknown id it is about the handle left uninitialised |
| MqttSubs.SweepOwnership | qcloud_iot_c_sdk/sdk_src/mqtt_client_yield.c:407-472 | the sweep keeps every string owned once, at any time and connected or not |
| MqttSubs.RequestOwnership | qcloud_iot_c_sdk/sdk_src/mqtt_client_subscribe.c:123-174 | a request does, whether it is queued or fails in any of its three ways |
| MqttSubs.ReleaseOwnership | qcloud_iot_c_sdk/sdk_src/mqtt_client_unsubscribe.c:114-130 | releasing slots does |
| MqttSubs.ReleaseSlots | qcloud_iot_c_sdk/sdk_src/mqtt_client_unsubscribe.c:114-130 | exactly the slots with that text lose their string, or all of them when the filter has a wildcard |
| MqttSubs.SubackCovered | qcloud_iot_c_sdk/sdk_src/mqtt_client_common.c:1000-1035 | a SUBACK for a subscription the table already holds leaves the table alone and frees the second string |
| MqttSubs.SubackSubscribes | qcloud_iot_c_sdk/sdk_src/mqtt_client_common.c:947-1046 | what a SUBACK for a waiting request does, case by case: refused, it frees the string; granted, it refreshes the slot that already serves the text and callbacks and frees the string, or fills the first free slot, or does nothing when the table is full; no other slot and no other request changes |
| MqttSubs.AskQueued | qcloud_iot_c_sdk/sdk_src/mqtt_client_subscribe.c:123-174 | a request that is sent and finds room waits under the next id with a copy of its text; any other leaves list, table and live strings as they were |
| MqttSubs.RequestFate | qcloud_iot_c_sdk/sdk_src/mqtt_client_yield.c:380-480 | over every orderly run each waiting request has the fate that the events alone decide: an acknowledgement with its id marks it, the next sweep lets it go, and so does a sweep at or past its deadline on a live link |
| MqttSubs.ResubscribeKeepsTable | qcloud_iot_c_sdk/sdk_src/mqtt_client_subscribe.c:199-214 | positive acknowledgements, in any order, of requests for what the table holds leave the table as it was |
| MqttSubs.IdsClash | qcloud_iot_c_sdk/sdk_src/mqtt_client_common.c:62-72 | two requests wait under one id exactly if a multiple of 65535 ids were handed out between them |
| MqttSubs.AskDistinct | qcloud_iot_c_sdk/sdk_src/mqtt_client_subscribe.c:123-174 | a queued request leaves the waiting ids distinct exactly if no waiting request is a multiple of 65535 ids older |
| MqttSubs.StepKeeps | qcloud_iot_c_sdk/sdk_src/mqtt_client_common.c:947-1105 | every call keeps the invariant if the broker acknowledges only what waits and a request is made while fewer than 65535 ids were handed out since the oldest waiting one |
| MqttSubs.RunKeeps | qcloud_iot_c_sdk/sdk_src/mqtt_client_common.c:873-1105 | in every such run each live string is in exactly one of a waiting request, a table slot, or the strings dropped when the table was full; none is freed twice or used after; no two live slots are identical; no two requests wait under one id |
| MqttSubs.ClientKeeps | qcloud_iot_c_sdk/sdk_src/mqtt_client_common.c:873-1105 | so it is from the creation of the client on |
| MqttSubs.SecondSubackBreaks | qcloud_iot_c_sdk/sdk_src/mqtt_client_common.c:977-998 | a run from the creation of the client: a subscription is refused, which ends the cycle before its sweep, and a second SUBACK for it frees its string again, or stores the freed string in the table |
| MqttSubs.UnknownUnsubackBreaks | qcloud_iot_c_sdk/sdk_src/mqtt_client_common.c:1070-1094 | another: an UNSUBACK for an id that nothing waits under, while the uninitialised handle holds the string of a live slot, leaves the slot with a freed string |
| MqttClient.Client.Subscribe | qcloud_iot_c_sdk/sdk_src/mqtt_client_subscribe.c:93-179 | the subscribe call against that state, with its error returns |
| MqttClient.Client.Unsubscribe | qcloud_iot_c_sdk/sdk_src/mqtt_client_unsubscribe.c:92-193 | the unsubscribe call: slots first, then the request, with its error returns |
| MqttClient.Client.HandleSuback | qcloud_iot_c_sdk/sdk_src/mqtt_client_common.c:947-1046 | marks the request, looks for an identical slot and a free one, and stores, drops or frees the string |
| MqttClient.Client.HandleUnsuback | qcloud_iot_c_sdk/sdk_src/mqtt_client_common.c:1056-1105 | marks the request and frees its string |
| MqttClient.Client.SubInfoProc | qcloud_iot_c_sdk/sdk_src/mqtt_client_yield.c:380-480 | the sweep over the requests refines the specified one |
| MqttClient.Client.Resubscribe | qcloud_iot_c_sdk/sdk_src/mqtt_client_subscribe.c:181-217 | asks again for every slot, up to the first failure; with room for ten more ids since the oldest waiting request the new requests wait under ids of their own, and whichever of them are then acknowledged, in any order, the table stays as it was and every string is owned once |
| MqttClient.SubackTold | qcloud_iot_c_sdk/sdk_src/mqtt_client_common.c:960-1040 | a refusal, a success and a full table, each with its result and with what the callbacks are told |
| MqttClient.SweepTold | qcloud_iot_c_sdk/sdk_src/mqtt_client_yield.c:436-466 | the sweep announces a timeout for exactly the requests that are not acknowledged and out of time on a live link, a subscription's callback included |
| MqttClient.WildLevel | qcloud_iot_c_sdk/sdk_src/mqtt_client_unsubscribe.c:116-116 | the two searches find a level that begins with a wildcard, other than the first, and nothing else |
| MqttClient.ReleaseTold | qcloud_iot_c_sdk/sdk_src/mqtt_client_unsubscribe.c:114-135 | an unsubscribe finds something exactly if a slot has the text or the filter such a level, and tells the callbacks of exactly the slots that go, free ones included |
| MqttLink.PingsBounded | qcloud_iot_c_sdk/sdk_src/mqtt_client_yield.c:145-203 | no pass of the main loop leaves more than two pings outstanding |
| MqttLink.LoopPings | qcloud_iot_c_sdk/sdk_src/mqtt_client_yield.c:237-281 | nor does any number of passes |
| MqttLink.SilentPass | qcloud_iot_c_sdk/sdk_src/mqtt_client_yield.c:159-202 | a silent link is given up at the expiry after the second unanswered ping, and at no earlier one |
| MqttLink.SilenceEnds | qcloud_iot_c_sdk/sdk_src/mqtt_client_yield.c:237-281 | no run of silence holds a link through more than three expiries |
| MqttLink.AnsweredPass | qcloud_iot_c_sdk/sdk_src/mqtt_client_common.c:1257-1331 | a PINGRESP, PUBACK, SUBACK or UNSUBACK keeps the link: no ping is outstanding then, and none is due for a whole keep-alive period |
| MqttLink.DropExactly | qcloud_iot_c_sdk/sdk_src/mqtt_client_yield.c:145-203 | a pass drops a connected link exactly if the network fails, or the ping timer is past without an answer in this pass and the ping cannot be written or would be the third without any packet in between |
| MqttLink.LiveExactly | qcloud_iot_c_sdk/sdk_src/mqtt_client_yield.c:237-281 | over every run without a failure of the network a link stays up at every point exactly if no third ping falls due before an answer or a PUBLISH comes |
| MqttLink.AttemptsBounded | qcloud_iot_c_sdk/sdk_src/mqtt_client_yield.c:26-31 | the interval has passed a minute exactly at the fifth attempt if it began above 1875 ms, at the sixth otherwise |
| MqttLink.BackOffKept | qcloud_iot_c_sdk/sdk_src/mqtt_client_yield.c:93-137 | each exceptional disconnect starts an interval of 1000 to 1990 ms, and each attempt doubles it |
| MqttLink.AttemptPass | qcloud_iot_c_sdk/sdk_src/mqtt_client_yield.c:93-137 | a pass on a link that is down makes an attempt exactly past the timer and with an interval of at most a minute; it succeeds exactly if the network connects, and a failed one doubles the interval and sets the timer on by it |
| MqttLink.ReconnectGivesUp | qcloud_iot_c_sdk/sdk_src/mqtt_client_yield.c:237-281 | at most six attempts follow a disconnect, and then yield answers with the reconnect timeout ever after |
| MqttLink.RunBacksOff | qcloud_iot_c_sdk/sdk_src/mqtt_client_yield.c:213-284 | over every run of calls that leaves automatic reconnection on, a link that is down, and not by a manual disconnect, is backing off after at most six attempts |
| MqttLink.BuiltBacksOff | qcloud_iot_c_sdk/sdk_src/mqtt_client.c:119-130 | in particular over every run from the construction of a client, which is connected then |
| MqttLink.GivesUpExactly | qcloud_iot_c_sdk/sdk_src/mqtt_client_yield.c:237-281 | for a link that is down the attempts are bounded, over all turns in which none succeeds, exactly if its interval is not zero |
| MqttLink.ZeroIntervalReached | qcloud_iot_c_sdk/sdk_src/mqtt_client.c:430-438 | a link lost while automatic reconnection is off, which is then switched on, has interval zero, and no number bounds its attempts |
| MqttLink.ManualStays | qcloud_iot_c_sdk/sdk_src/mqtt_client_yield.c:223-226 | a link that the user disconnected stays down over every run of calls, and every yield answers so |
| MqttLink.LostStays | qcloud_iot_c_sdk/sdk_src/mqtt_client_yield.c:228-231 | a link lost while automatic reconnection is off stays as it is until that is switched on, and every yield answers that there is no connection, or that the user ended it |
| MqttLink.Connection.SetAutoReconnect | qcloud_iot_c_sdk/sdk_src/mqtt_client.c:430-438 | switches automatic reconnection and changes nothing else |
| MqttLink.Connection.KeepAlive | qcloud_iot_c_sdk/sdk_src/mqtt_client_yield.c:145-203 | the keep-alive call refines its specification |
| MqttLink.Connection.HandleReconnect | qcloud_iot_c_sdk/sdk_src/mqtt_client_yield.c:93-137 | so does the reconnection |
| MqttLink.Connection.AttemptReconnect | qcloud_iot_c_sdk/sdk_src/mqtt_client_connect.c:373-398 | connects only when not connected; reconnected exactly if the connection and the resubscription succeed |
| MqttLink.Connection.Disconnect | qcloud_iot_c_sdk/sdk_src/mqtt_client_connect.c:400-446 | a manual disconnect, refused without a connection and without effect if the packet cannot be sent |
| MqttLink.Connection.Yield | qcloud_iot_c_sdk/sdk_src/mqtt_client_yield.c:213-284 | the main loop refines the specification that the bounds, the exact conditions and the runs are proved about |
| MqttCodec.LenRoundTrip | qcloud_iot_c_sdk/sdk_src/mqtt_client_common.c:101-169 | the length field of any number, whatever follows it, is read to its end and has that value (section 2.2.3 of MQTT 3.1.1) |
| MqttCodec.LenBytes | qcloud_iot_c_sdk/sdk_src/mqtt_client_common.c:101-118 | its bytes, one to four, as the table of section 2.2.3 of MQTT 3.1.1 has them |
| MqttCodec.LenCanonical | qcloud_iot_c_sdk/sdk_src/mqtt_client_common.c:143-169 | a field that is read is the one that is written for its value exactly if it does not end in a superfluous zero byte; the written one is never longer |
| MqttCodec.Sizes | qcloud_iot_c_sdk/sdk_src/mqtt_client_common.c:101-118 | four bytes are enough exactly up to 268435455 |
| MqttCodec.PacketLenBounds | qcloud_iot_c_sdk/sdk_src/mqtt_client_common.c:120-135 | the computed packet size is right but for one byte too many at exactly 127, 16383, 2097150 and 2097151, and too small above 268435455 |
| MqttCodec.WriteRemLen | qcloud_iot_c_sdk/sdk_src/mqtt_client_common.c:101-118 | the loop writes that field and nothing else |
| MqttCodec.ReadRemLen | qcloud_iot_c_sdk/sdk_src/mqtt_client_common.c:143-184 | the loop returns value and size of a field of at most four bytes and refuses any other |
| MqttCodec.PublishRoundTrip | qcloud_iot_c_sdk/sdk_src/mqtt_client_publish.c:140-293 | parsing a printed PUBLISH, with anything behind it, returns it exactly if the topic has at most 2048 bytes and the length fits (section 3.3 of MQTT 3.1.1) |
| MqttCodec.PacketBytes | qcloud_iot_c_sdk/sdk_src/mqtt_client_publish.c:253-293 | each byte of a printed PUBLISH: flags, length, topic behind its length high byte first, id high byte first if the quality of service asks for one, and payload (section 3.3 of MQTT 3.1.1) |
| MqttCodec.Serialize | qcloud_iot_c_sdk/sdk_src/mqtt_client_publish.c:253-293 | the buffer begins with that packet and is otherwise unchanged, or the call fails exactly when the computed size is over the buffer |
| MqttCodec.Deserialize | qcloud_iot_c_sdk/sdk_src/mqtt_client_publish.c:140-198 | the pointer walk is that parser, including the read past the end of a packet too short for its id |
| MqttCodec.ReadsPastEnd | qcloud_iot_c_sdk/sdk_src/mqtt_client_publish.c:171-190 | on a buffer that holds a whole packet the parser reads past the end exactly if the quality of service is not zero and the body ends less than two bytes behind a topic that fits |
| MqttCodec.ShortPacketReadsPastEnd | qcloud_iot_c_sdk/sdk_src/mqtt_client_publish.c:171-190 | it does for the four bytes 32 02 00 00: QoS 1, an empty topic and no id |
| TopicMatch.IsTopicMatched | qcloud_iot_c_sdk/sdk_src/mqtt_client_common.c:719-762 | the two-pointer loop computes the walk the lemmas are about |
| TopicMatch.MatcherExact | qcloud_iot_c_sdk/sdk_src/mqtt_client_common.c:719-762 | for every valid filter and name the matcher says yes exactly if section 4.7.1 of MQTT 3.1.1 does, or the name ends in an empty level on a +, or the level before # is only begun |
| TopicMatch.MatchIsAccepted | qcloud_iot_c_sdk/sdk_src/mqtt_client_common.c:719-762 | hence no matching message is lost |
| TopicMatch.PlainIsEquality | qcloud_iot_c_sdk/sdk_src/mqtt_client_common.c:703-762 | without wildcards matching is equality |
| TopicMatch.HashPassesLongerLevel | qcloud_iot_c_sdk/sdk_src/mqtt_client_common.c:760-760 | a/# is passed ab, which it does not match |
| TopicMatch.SplitJoins | qcloud_iot_c_sdk/sdk_src/mqtt_client_common.c:719-730 | every text without wildcards is a name, with the levels it splits into |
| CoapCodec.OpRoundTrip | qcloud_iot_c_sdk/sdk_src/coap_client_serialize.c:101-214 | a printed option reads back whatever follows, and never begins like the payload marker (section 3.1 of RFC 7252) |
| CoapCodec.OpsRoundTrip | qcloud_iot_c_sdk/sdk_src/coap_client_deserialize.c:305-339 | a printed list of options reads back up to the end or the marker |
| CoapCodec.MessageRoundTrip | qcloud_iot_c_sdk/sdk_src/coap_client_deserialize.c:376-425 | a printed message reads back with header, token, options in order and payload exactly if its class is 0, 2, 4 or 5 |
| CoapCodec.OptionBytes | qcloud_iot_c_sdk/sdk_src/coap_client_serialize.c:101-214 | a printed option is the byte of two nibbles, both extensions and the value of section 3.1 of RFC 7252 |
| CoapCodec.MessageBytes | qcloud_iot_c_sdk/sdk_src/coap_client_serialize.c:46-321 | a printed message is the header of section 3 of RFC 7252, byte by byte, then token, options and the marked payload |
| CoapCodec.RefusedExactly | qcloud_iot_c_sdk/sdk_src/coap_client_deserialize.c:59-83 | a message is refused exactly if it is empty and non-confirmable or carries something, or is a reset and not empty (sections 4.1 to 4.3 of RFC 7252) |
| CoapCodec.OpCanonical | qcloud_iot_c_sdk/sdk_src/coap_client_deserialize.c:208-303 | an option is accepted only as it would be printed, if its increment fits an option number |
| CoapCodec.MessageCanonical | qcloud_iot_c_sdk/sdk_src/coap_client_deserialize.c:376-425 | and so a message is accepted only as it would be printed |
| CoapMessage.InsertSorted | qcloud_iot_c_sdk/sdk_src/coap_client_common.c:165-208 | adding an option keeps the list sorted by number |
| CoapMessage.InsertStable | qcloud_iot_c_sdk/sdk_src/coap_client_common.c:165-208 | and keeps options of one number in the order they were added |
| CoapMessage.AddAllSorts | qcloud_iot_c_sdk/sdk_src/coap_client_common.c:165-208 | so adding one after another is a stable sort |
| CoapMessage.OptionList.Add | qcloud_iot_c_sdk/sdk_src/coap_client_common.c:165-208 | the walk and rewiring of next, first and last carry out that insertion |
| CoapMessage.OptionList.AddLast | qcloud_iot_c_sdk/sdk_src/coap_client_deserialize.c:97-130 | appends at the end of the linked list |
| CoapMessage.PrecheckRight | qcloud_iot_c_sdk/sdk_src/coap_client_serialize.c:107-135 | the size asked for is right exactly if number and length are on the same side of 13 or the length is 269 or more; otherwise it is off by one |
| CoapMessage.PlainNeverOverruns | qcloud_iot_c_sdk/sdk_src/coap_client_serialize.c:107-140 | no buffer is overrun if no option has a number below 13 and a value of 13 to 268 bytes |
| CoapMessage.OverrunsExactly | qcloud_iot_c_sdk/sdk_src/coap_client_serialize.c:107-140 | a list of options overruns no buffer, whatever its size, exactly if all its options are such |
| CoapMessage.RoomEnough | qcloud_iot_c_sdk/sdk_src/coap_client_serialize.c:216-250 | a buffer that holds all options is never overrun, and one byte more lets them all pass |
| CoapMessage.FitsWhenRoomy | qcloud_iot_c_sdk/sdk_src/coap_client_serialize.c:271-321 | a message whose print leaves a byte unused is printed; one without such options only if it fits |
| CoapMessage.FormatOp | qcloud_iot_c_sdk/sdk_src/coap_client_serialize.c:101-214 | one option is written as specified or refused, and nothing else changes |
| CoapMessage.SerializeOptions | qcloud_iot_c_sdk/sdk_src/coap_client_serialize.c:216-250 | the loop over the linked list writes the options' print |
| CoapMessage.Serialize | qcloud_iot_c_sdk/sdk_src/coap_client_serialize.c:271-321 | the buffer holds the message's print, or the call fails exactly when one of its size checks does |
| CoapParser.DecodeSame | qcloud_iot_c_sdk/sdk_src/coap_client_deserialize.c:132-425 | the parser by position is the parser of the round trip |
| CoapParser.ParseOptions | qcloud_iot_c_sdk/sdk_src/coap_client_deserialize.c:305-339 | the loop leaves exactly the decoded options in the list, or reports the failure |
| CoapParser.Deserialize | qcloud_iot_c_sdk/sdk_src/coap_client_deserialize.c:376-425 | the message is filled as decoded and then checked, or left zeroed |
| CoapExchange.CycleQuiet | qcloud_iot_c_sdk/sdk_src/coap_client_message.c:364-377 | after every cycle that reads or times out no ended exchange is left in the list |
| CoapExchange.CycleFollows | qcloud_iot_c_sdk/sdk_src/coap_client_message.c:58-218 | through a cycle a request is only written or told more, an acknowledged one is not written again, and one that is gone stays as it was |
| CoapExchange.RunKeeps | qcloud_iot_c_sdk/sdk_src/coap_client_message.c:58-377 | over every run a request is written at most 1 + max_retry_count times, told at most once, and exactly once by its removal if a callback is registered (section 4.2 of RFC 7252); CoapExchange.NeverAfterAck adds what its acknowledgement does |
| CoapExchange.ClientKeeps | qcloud_iot_c_sdk/sdk_src/coap_client_message.c:58-377 | all of that from the empty list of a new client on, at any point of any run, where every request ever written waits or is gone and not both |
| CoapExchange.TimesOut | qcloud_iot_c_sdk/sdk_src/coap_client_message.c:150-206 | without an acknowledgement a request is written exactly 1 + max_retry_count times and ends at the next expiry; an acknowledged one ends at its next expiry |
| CoapExchange.ExchangeFate | qcloud_iot_c_sdk/sdk_src/coap_client_message.c:58-377 | over every run each waiting request has the fate that the events alone decide: which messages acknowledge or answer it, when its timer starts anew, how often it is written and when it is given up |
| CoapExchange.ClientFate | qcloud_iot_c_sdk/sdk_src/coap_client_message.c:379-414 | so it is for every request of a client, from any point of any run on, beginning with one write and a timer just set |
| CoapExchange.AckSweep | qcloud_iot_c_sdk/sdk_src/coap_client_message.c:99-105 | the sweep of an acknowledgement marks every request with its id and starts its timer anew, and changes no other |
| CoapExchange.NeverAfterAck | qcloud_iot_c_sdk/sdk_src/coap_client_message.c:99-206 | once the acknowledgement of a waiting request was received, that request is never written again, whatever follows |
| CoapExchange.AnswerEnds | qcloud_iot_c_sdk/sdk_src/coap_client_message.c:106-149 | the answer to a waiting request, with its acknowledgement or on its own, ends the exchange in the same cycle, and its callback is told |
| CoapClient.Client.ListProc | qcloud_iot_c_sdk/sdk_src/coap_client_message.c:58-218 | the sweep in its four commands refines the specified one |
| CoapClient.Client.Send | qcloud_iot_c_sdk/sdk_src/coap_client_message.c:379-414 | only a confirmable request that was written joins the list |
| CoapClient.Client.Handle | qcloud_iot_c_sdk/sdk_src/coap_client_message.c:279-316 | which message runs which sweep |
| CoapClient.Client.Cycle | qcloud_iot_c_sdk/sdk_src/coap_client_message.c:364-377 | a cycle refines its specification, including read errors |
| NvsFormat.BitmapMarks | examples/mqtt_demo/tree_tuple/nvs_partition_gen.py:114-122 | the bitmap of n entries marks exactly entries 0 to n - 1 |
| NvsFormat.BitmapNext | examples/mqtt_demo/tree_tuple/nvs_partition_gen.py:114-122 | clearing one bit turns it into that of n + 1 |
| NvsFormat.WalkLands | examples/mqtt_demo/tree_tuple/nvs_partition_gen.py:219-227 | going from header to header by the span bytes lands exactly on the number of entries |
| NvsFormat.LayoutFront | examples/mqtt_demo/tree_tuple/nvs_partition_gen.py:85-104 | the first bytes of a page: the state 0xFFFFFFFE, its number, the version, and the checksum of the 24 bytes in between, low byte first |
| NvsPartition.Page.WriteBitmap | examples/mqtt_demo/tree_tuple/nvs_partition_gen.py:114-122 | marks the next entry in the page's bytes |
| NvsPartition.Page.WriteEntryToBuf | examples/mqtt_demo/tree_tuple/nvs_partition_gen.py:211-227 | puts the bytes at the next entry, marks their entries and changes nothing else |
| NvsPartition.Page.Put | examples/mqtt_demo/tree_tuple/nvs_partition_gen.py:340-356 | the page stays exactly the layout of its entries, now with one more |
| NvsReader.PageReadsBack | examples/mqtt_demo/tree_tuple/nvs_partition_gen.py:211-227 | a reader that sees only the bytes of a page, and accepts an entry only under its two checksums, finds its entries, in order, with their data |
| NvsReader.BlobReadsBack | examples/mqtt_demo/tree_tuple/nvs_partition_gen.py:240-337 | a blob written behind entries that do not use its key reads back whole, whatever follows |
| NvsGenerator.NumberReadsBack | examples/mqtt_demo/tree_tuple/nvs_partition_gen.py:439-453 | a number that is packed reads back, negative ones too, by a reader that knows width and sign from the kind of the entry alone |
| NvsGenerator.LongTextNeverFits | examples/mqtt_demo/tree_tuple/nvs_partition_gen.py:371-386 | with room for a page a text of version 2 is stored exactly up to 3968 bytes, though up to 4000 pass the length check; in version 1 text and blobs up to 1984 |
| NvsGenerator.StaysExactly | examples/mqtt_demo/tree_tuple/nvs_partition_gen.py:383-393 | a number goes on the current page while one of its 126 entries is free, text and old blobs only if one more than they need is, and otherwise on a new page |
| NvsGenerator.FullPageStopsBlobs | examples/mqtt_demo/tree_tuple/nvs_partition_gen.py:250-251 | on a page with no entry left a blob of version 2 fails whatever the space, where version 1 and numbers go to a new page |
| NvsGenerator.Nvs.CreateNewPage | examples/mqtt_demo/tree_tuple/nvs_partition_gen.py:502-516 | a page is added, with the next number, or the size is used up and nothing changes |
| NvsGenerator.Nvs.WriteBlob | examples/mqtt_demo/tree_tuple/nvs_partition_gen.py:240-337 | the loop ends, though its first chunk may be empty; it succeeds exactly if the page has an entry left, the space holds the pages it needs and there are at most 255 chunks; then the entries gain chunks that join to the data and an index with their number and its size |
| NvsGenerator.Nvs.WriteVarlen | examples/mqtt_demo/tree_tuple/nvs_partition_gen.py:363-421 | which outcome a text or blob has on the current page, and the entries it adds |
| NvsGenerator.Nvs.WritePrimitive | examples/mqtt_demo/tree_tuple/nvs_partition_gen.py:425-466 | the same for a number |
| NvsGenerator.Nvs.WriteNamespace | examples/mqtt_demo/tree_tuple/nvs_partition_gen.py:522-529 | a new namespace and its entry, on a new page if the current one is full |
| NvsGenerator.Nvs.WriteEntry | examples/mqtt_demo/tree_tuple/nvs_partition_gen.py:536-567 | a value is stored exactly under a condition on its size, the page and the space left; then the entries gain exactly its own, and the page and the space left are those behind it |
| NvsGenerator.Nvs.Finish | examples/mqtt_demo/tree_tuple/nvs_partition_gen.py:487-500 | the image has the size given plus a blank page, begins each data page with state, page number, version and checksum, and reads back as all entries in order |
| NvsFile.BlobInFile | examples/mqtt_demo/tree_tuple/nvs_partition_gen.py:706-742 | every blob of a finished partition whose key was not used for one before reads back whole |
| NvsFile.RowInFile | examples/mqtt_demo/tree_tuple/nvs_partition_gen.py:706-742 | every other row is one entry a reader finds, with its namespace, its key padded with zeros, and its number, text or bytes as its kind says; a namespace row is the index of the new namespace |
| NvsFile.Generate | examples/mqtt_demo/tree_tuple/nvs_partition_gen.py:706-742 | the run succeeds exactly if the size is fit and each row is accepted at the place where those before it end; then the file has the size asked for, each of its data pages the state, its number, the version and their checksum, it holds exactly the entries of the rows and ends in a blank page, and otherwise there is none |
| Digest.LengthField | qcloud_iot_c_sdk/sdk_src/utils_md5.c:265-275 | the eight bytes made of the two 32-bit counters are the length in bits modulo 2^64 (section 3.2 of RFC 1321), also high word first |
| Digest.PaddedMeans | qcloud_iot_c_sdk/sdk_src/utils_md5.c:260-288 | the padded message, byte by byte: the message, 0x80, as few zeros as fill the last block, and the length in bits (sections 3.1 and 3.2 of RFC 1321, section 4 of RFC 3174) |
| Digest.HashMeans | qcloud_iot_c_sdk/sdk_src/utils_sha1.c:291-321 | the digest is the chain of the compression over that from the initial words, each word in the byte order of the algorithm |
| Digest.InitialWords | qcloud_iot_c_sdk/sdk_src/utils_md5.c:85-94 | the initial words, by their bytes (section 3.3 of RFC 1321, section 6.1 of RFC 3174) |
| Digest.Context.Update | qcloud_iot_c_sdk/sdk_src/utils_md5.c:222-252 | the context has taken in the input behind what it had, however it falls on the 64-byte blocks |
| Digest.Context.Finish | qcloud_iot_c_sdk/sdk_src/utils_sha1.c:291-321 | the output is the compression of the whole padded message (section 4 of RFC 3174), and the same in MD5's byte order |
| Digest.HashPieces | qcloud_iot_c_sdk/sdk_src/utils_md5.c:222-285 | so the digest does not depend on how the message was cut |
| Digest.Md5 | qcloud_iot_c_sdk/sdk_src/utils_md5.c:299-309 | sixteen bytes: that digest, with the initial words and the byte order of RFC 1321 |
| Digest.Sha1 | qcloud_iot_c_sdk/sdk_src/utils_sha1.c:327-337 | twenty bytes, with those of RFC 3174 |
| Digest.HexReadsBack | qcloud_iot_c_sdk/sdk_src/utils_hmac.c:72-75 | the hexadecimal text determines the digest |
| Digest.HexDigits | qcloud_iot_c_sdk/sdk_src/utils_hmac.c:71-74 | it has two lower-case digits for each byte, the high one first |
| Digest.HmacMeans | qcloud_iot_c_sdk/sdk_src/utils_hmac.c:45-69 | the HMAC of section 2 of RFC 2104 in bytes: the key filled up with zeros, with 0x36 and with 0x5c |
| Digest.HmacHex | qcloud_iot_c_sdk/sdk_src/utils_hmac.c:27-125 | for keys up to 64 bytes the hexadecimal text of the HMAC of section 2 of RFC 2104; longer keys leave the output alone |
| Base64.DecodeEncode | qcloud_iot_c_sdk/sdk_src/utils_base64.c:55-199 | what is encoded is accepted and decodes to itself, for every byte string (section 4 of RFC 4648) |
| Base64.Alphabet | qcloud_iot_c_sdk/sdk_src/utils_base64.c:25-34 | the characters are those of table 1 of RFC 4648 |
| Base64.EncodedGroup | qcloud_iot_c_sdk/sdk_src/utils_base64.c:83-111 | the characters of a group are the six-bit digits of the number its bytes make, with pads for those that are missing (section 4 of RFC 4648) |
| Base64.DecodedGroup | qcloud_iot_c_sdk/sdk_src/utils_base64.c:179-193 | the bytes of a group without pads are the number its six-bit digits make |
| Base64.SecondPassFits | qcloud_iot_c_sdk/sdk_src/utils_base64.c:168-193 | for every accepted text, padded or not, the second pass writes no more than the first computed |
| Base64.Base64Encode | qcloud_iot_c_sdk/sdk_src/utils_base64.c:55-117 | the buffer holds the encoding and a zero, or the size needed is reported and nothing is written |
| Base64.Check | qcloud_iot_c_sdk/sdk_src/utils_base64.c:126-162 | the first pass lets through exactly the valid texts and counts their characters and pads |
| Base64.Write | qcloud_iot_c_sdk/sdk_src/utils_base64.c:179-196 | the second pass, with its 32-bit accumulator, writes exactly the decoded bytes |
| Base64.Base64Decode | qcloud_iot_c_sdk/sdk_src/utils_base64.c:119-199 | both passes together: the decoded bytes and their number, or a refusal that leaves the buffer alone and, for a valid text in a buffer too small, reports the size needed |
| OtaHttp.Http.RetrieveContent | qcloud_iot_c_sdk/sdk_src/utils_httpc.c:472-538 | what is placed in the buffer are the next bytes of the body, the remaining length falls by as many, and the buffer is full unless nothing remains; the rest still follows exactly if nothing remains or the buffer was longer than what came with the header; a failure is that of the last read |
| OtaHttp.Http.ParseResponse | qcloud_iot_c_sdk/sdk_src/utils_httpc.c:545-629 | the bytes read along with the header are the first of the body; each way to fail has its code |
| OtaHttp.Http.Fetch | qcloud_iot_c_sdk/sdk_src/ota_fetch.c:115-141 | the number returned, a difference of counters, is the number of bytes placed; a failure is the code of how the reads of this call ended |
| OtaHttp.MissingFileMeans | qcloud_iot_c_sdk/sdk_src/ota_fetch.c:128-129 | a missing file is reported exactly if the server answers 404, or the first read brings less than the first line, or the connection fails with -6 or -10; so the report means a 404 exactly if the other two are not the case |
| OtaHttp.RefusalMeans | qcloud_iot_c_sdk/sdk_src/ota_fetch.c:131-132 | a refused authorisation is reported exactly for a 403 or a failure of the connection with -7 or -9, and means a 403 exactly without the latter |
| OtaHttp.TimeoutMeans | qcloud_iot_c_sdk/sdk_src/ota_fetch.c:134-135 | a timeout is reported exactly if the time ran out before the body was there, or there is no connection, or it fails with -8 or -11, and means the first exactly without the others |
| OtaHttp.FailedReadEnds | qcloud_iot_c_sdk/sdk_src/utils_httpc.c:324-359 | a fetch whose last read failed ends with that failure, a shutdown that brought nothing included; any other end has a code of the client's own |
| OtaHttp.OneByteIsMissingFile | qcloud_iot_c_sdk/sdk_src/utils_httpc.c:560-565 | a first read that ends after one byte of a response with status 200 is reported as a missing file, and a fetch on a closed connection as a timeout |
| OtaClient.Ota.UpdateClientMd5 | qcloud_iot_c_sdk/sdk_src/ota_client.c:357-362 | the digest takes in what an earlier download left behind |
| OtaClient.Ota.StartDownload | qcloud_iot_c_sdk/sdk_src/ota_client.c:335-353 | the offset is added to the count; a failed connection ends in the disconnected state |
| OtaClient.Ota.FetchYield | qcloud_iot_c_sdk/sdk_src/ota_client.c:514-572 | each success delivers the next bytes of the body, adds their number to the count and feeds the digest exactly them; the state turns to fetched exactly when the file is complete or a fetch fails, and the error is then the code of the fetch if it is one of three |
| OtaClient.Ota.CheckFirmware | qcloud_iot_c_sdk/sdk_src/ota_client.c:631-650 | the firmware passes exactly if the hexadecimal digest of all that was fed is the announced one |
| OtaClient.Download | examples/mqtt_demo/main/device_ota.c:294-342 | the flash holds from the offset on the beginning of the body and is unchanged elsewhere, the digest has taken in the same, and a complete download covers the file |
| UartCrc.AdjacentDetected | examples/mqtt_demo/main/device_uart.c:189-213 | messages of one length that differ only within two adjacent bytes have different CRCs, for every length and start value |
| UartCrc.TrailerIsCrc | examples/mqtt_demo/main/device_uart.c:63-65 | the two bytes behind a message are its CRC exactly if the CRC over all of them is zero |
| UartCrc.CheckValue | examples/mqtt_demo/main/device_uart.c:189-213 | the CRC of the nine digits: 0xFEE8 from zero, which is the check value of this polynomial, and 0x9D4E from the start value in use |
| UartCrc.Crc16 | examples/mqtt_demo/main/device_uart.c:189-213 | the nested loops compute the register over the first len bytes |
| UartCrc.CheckFrame | examples/mqtt_demo/main/device_uart.c:53-66 | a frame is accepted exactly if it is long enough, begins with the markers and has a CRC of zero over message and trailer |
| UartCrc.SealedAccepted | examples/mqtt_demo/main/device_uart.c:53-66 | a frame that carries its own CRC is accepted, whatever follows it |
| UartCrc.DamageRefused | examples/mqtt_demo/main/device_uart.c:53-66 | damage to an accepted frame within two adjacent bytes of what its CRC covers is noticed |

## Left out

- AesCrypt.CryptCbc: input and output are one array or two separate ones, not overlapping pieces of one.
- AesCrypt.EncryptPadded: the input buffer is required to reach to the end of the padded length when the output is another one, since the code reads that far; `datalen + 16` is below 2^32.
- AesGen.GenTables: the variant with fewer or constant tables is not modelled; the mode is one of the two the interface names.
- MqttPubs.RunKeeps: a publish is represented by its id, its place in the order of issue and its deadline; the copy of its packet is not.
- MqttSubs.RunKeeps: orderly runs are those in which the broker acknowledges only requests that still wait and no request is made while one waits that is 65534 ids older; without that the exact conditions of the acknowledgement and id lemmas say what can happen.
- MqttSubs.RequestOwnership: allocation never fails.
- MqttClient.Client.HandleSuback: one return code a packet, as for the single filter a request carries; SUBSCRIBE and UNSUBSCRIBE packets with several filters, whose length computation is right only for one, are not built by any caller.
- MqttLink.Connection.KeepAlive: serialising the two-byte PINGREQ always succeeds.
- MqttLink.SilenceEnds: the clock does not wrap around.
- MqttCodec.Serialize: the length of the packet is required to be at most 268435455; above, the computed size is too small and the code would write past the buffer it checked.
- MqttCodec.Deserialize: the buffer holds all of the packet, as the reader of packets leaves it; what a packet too short for its id makes the code read is one outcome, not a value.
- TopicMatch.IsTopicMatched: the name is not empty; for an empty one the code can read the character before it. The exception of topics that begin with `$` (section 4.7.2 of MQTT 3.1.1) is not in the code.
- CoapMessage.FormatOp: the buffer is one that the faulty size check does not let overrun; which lists of options need no such condition is CoapMessage.OverrunsExactly.
- CoapMessage.SerializeOptions: the same condition, along the list.
- CoapMessage.Serialize: the buffer is required to be one that the faulty size check does not let overrun; which these are is stated by lemmas beside it.
- CoapParser.Deserialize: `char` is unsigned and 16-bit words are stored low byte first, as on the devices the SDK is built for; the code reads option bytes through `char` and swaps the two bytes of an extended number (coap_client_deserialize.c:234-262).
- CoapCodec.MessageRoundTrip: the same holds of the printer, whose extended numbers are written high byte first.
- CoapParser.ParseOptions: the length is tested before the byte is read; the code reads first.
- CoapExchange.RunKeeps: the notices to the event handler are counted when one is registered; acknowledgements that are sent do not enter the list and are not otherwise modelled.
- UtilsList.List.Remove: the node is one of the list's; removing any other node, and freeing, are not modelled.
- NvsPartition.Page.WriteEntryToBuf: encryption of entries is not modelled.
- NvsGenerator.Nvs.WriteEntry: keys have at most 16 bytes, which the code does not check; values come decoded, so that hexadecimal and Base64 decoding, non-ASCII text and the spelling of encoding names in capitals are not modelled.
- NvsFile.Generate: rows come parsed; key generation and the file of encryption keys are not modelled.
- Digest.Context.Update: a size has 32 bits, so one piece is shorter than 2^32 bytes; the compression functions of MD5 and SHA-1 are parameters, of which only the number of words they return is used.
- Digest.HmacHex: null pointers are not modelled.
- Base64.Base64Encode: a size has 32 bits; a null destination is not modelled.
- OtaHttp.Http.RetrieveContent: only bodies with a known length, not chunked ones.
- OtaHttp.Http.Fetch: a fetch after the whole body was delivered, which would parse a second response; and the call after one with a buffer under 1024 bytes, where what did not fit the first time is lost.
- OtaHttp.Http.ParseResponse: the scanning of the header is represented by where it ends and by its status and length, from 0 to 2^31 - 1.
- OtaHttp.Link.Read: a read that brings nothing takes some time, without which the loop would not end.
- OtaClient.Ota.FetchYield: the response is long enough for the rest of the file, so that no second response is parsed on one connection; progress reports and their messages are not modelled.
- OtaClient.Download: the loop ends after a given number of rounds; erasing the flash and its errors are not modelled.
- UartCrc.CheckFrame: what is done with an accepted frame is not modelled.
- Transport layers (TCP, UDP, TLS, DTLS), mutexes and threads: each public call is one step, and callbacks do not call back.
- Shadow documents, JSON scanning, logging, certificates, Wi-Fi set-up and device drivers: texts and input or output without an invariant of their own.
- The QoS 2 flow, which the client refuses, and the repeated-message filter of received publishes.
- The shadow's request list beyond the sweep over it, and the CONNECT packet, which would add members of kinds already here.
