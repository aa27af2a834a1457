# Verified model of the device client

The repository is a C program for a small device that talks to AWS IoT: an MQTT 3.1.1 client with
Thing Shadow support, and the libraries it brings along. This Dafny project models the parts whose
correctness is hardest to see and proves what they promise. `dafny verify dfyconfig.toml` checks
everything.

* **Multi-precision integers** (`Arith`, `Limbs`, `Mpi`, `Shift`, `IntDiv`, `Div`, `Gcd`, `InvMod`,
  `Mont`, `ExpMod`): the arithmetic of `bignum.c` from carry loops up to long division, binary gcd,
  modular inverse and sliding-window exponentiation. A number is an object with a sign and a list of
  limbs over the base 2^biL; biL is 32 or 64 and otherwise left open, so every result holds for both
  limb sizes. Limb operations wrap explicitly.
* **The jsmn tokenizer** (`JsmnSpec`, `JsmnExamples`, `JsmnProps`, `Jsmn`, `JsmnRender`, `JsmnPrefix`): the parser object over a
  token array is proved against a function that takes one step per character; whole runs, counting,
  running out of tokens, the bracket stack in the flat array, the tokens of any written document, and
  input that arrives in pieces are theorems about that function.
* **Topic matching** (`Topic`, `TopicExamples`): the two-pointer walk against matching level by level (section 4.7.1
  of MQTT 3.1.1).
* **The PUBLISH packet and the answers** (`Wire`, `Publish`, `PublishExamples`, `Acks`): writers and readers
  that move a pointer through a byte buffer, and both round trips.
* **The client** (`ClientSpec`, `ClientExamples`, `Client`): states, the brackets around publish, subscribe and unsubscribe, message
  handlers that call back to any depth, keep-alive, and exponential reconnecting. A history of events
  records what happened; the read buffer, the handler table and the number of failed rounds are
  functions of it, and rules say which event may follow which past. The network, timers and what a handler does are
  arbitrary choices or parameters, so each contract holds for all of them; a timer is the number of times it is
  asked before it runs out, and `depth` bounds how deeply handlers' own calls run further handlers,
  for an arbitrary bound.
* **The Shadow tables** (`ShadowTables`, `ShadowStatus`, `ShadowCalls`, `Shadow`): the list of requests that
  await an answer, the reference-counted list of subscribed topics, the status of an answer, and the history of
  MQTT calls.
* **CCM** (`CcmSpec`, `CcmLayout`, `Ccm`): over any function from 16-byte blocks to 16-byte blocks.
* **Base64** (`Base64Spec`, `Base64Accepts`, `Base64`).

`Slices` holds what two of these share about words inside texts.

## What was found

Where the code does not do what its documentation or the general notion says, the model follows the
code, and the exact condition under which it does is proved:

* `mbedtls_mpi_exp_mod` with a base of sign -1 returns N minus the power of the magnitude, which is the
  right residue exactly for odd exponents with a power that N does not divide, and so exactly for odd
  exponents when the base is coprime to N > 1; a zero of sign -1 gives N instead of 0 for E > 0
  (`ExpMod.ExpResultNegative`, `ExpMod.ExpResultCoprime`, `ExpMod.NegativeBaseFails`).
* `mbedtls_mpi_gcd` returns 0 when B is 0 (`Gcd.GcdCorrectIff`).
* `mbedtls_mpi_inv_mod` with N = 1 finds gcd 1 and then halves zero forever (`InvMod.InvModAtOne`); for
  every other N it ends with the right answer (`InvMod.InvModMpi`).
* The topic matcher is narrower than the standard: a wildcard needs a level that exists and is not
  empty (`Topic.MatcherIsStandardWhenCovered`, `TopicExamples.NarrowerThanStandard`).
* The size asked for by the MQTT serializers is enough exactly below a remaining length of 2^28, and
  one byte too much at three values (`Wire.FinalLengthEnough`).
* The size check of the PUBLISH serializer adds in 32 bits: a packet that passes it fits the buffer
  exactly when the true remaining length is below 2^32 - 5 (`Publish.CheckedFits`,
  `Publish.WrappedCheckPasses`).
* A received PUBLISH packet with QoS above 0 and no room for its packet id is accepted with a payload
  length just below 2^64; the payload lies in the buffer exactly for the other packets
  (`Publish.PayloadOfReceived`, `Publish.PayloadOutside`).
* A SUBACK is accepted whatever codes it grants, so a subscription that the server refuses with 0x80 is
  stored and the call succeeds; nor is the packet id of an answer compared with that of its request
  (`Acks.SubackAcceptedIff`, `ClientExamples.RefusedSubscriptionSucceeds`, `ClientExamples.AnyPubackSucceeds`).
* A document that reaches jsmn in pieces is parsed as one that comes whole exactly when no piece ends inside
  a primitive, which is then taken for finished (`JsmnPrefix.ResumeAfterCut`, `JsmnPrefix.CutWord`).
* A message's topic stays in the read buffer while its handlers run, and their calls read into the same
  buffer. Later slots are compared with the message's own topic exactly when of each of its bytes the
  last covering read wrote the same byte again, for instance when all packets read meanwhile have at
  most four bytes; a SUBACK for one subscription spoils it (`ClientSpec.OwnTopicIff`,
  `ClientSpec.ShortReadsDoNoHarm`, `Client.Client.SubackSpoilsTopic`).
* A subscribe call made by a handler while an outer one waits returns success, and its subscription is
  overwritten exactly when it went to the slot that was first free when the outer call began
  (`ClientSpec.StoredMeanwhile`, `ClientSpec.NestedSubscribeLost`).
* A length read from the network is never refused for having too many digits; it is what the decoder of
  buffers says exactly up to four (`Wire.ReadNetworkLen`, `Wire.NetworkAgreesIff`, `Wire.FiveDigits`).
* A slot whose subscription a handler drops while subscriptions are requested again is requested all
  the same (`ClientSpec.FreeAtItsTurnIff`, `ClientSpec.FreedSlotIsRequested`).
* After a reconnect only the subscriptions before the first free slot are requested again, which is all
  of them exactly when no free slot precedes an occupied one (`ClientSpec.ResubscribeReachesAll`,
  `ClientSpec.ResubscribeMissesLater`).
* The length that the base64 decoder announces can exceed what it writes: exactly when the symbols
  beyond the last full group are not all padding (`Base64Spec.AnnouncedLength`). A CR LF inserted
  between a CR and its LF makes an accepted text invalid (`Base64Spec.InsertBreak`).
* CCM accepts additional data of exactly 65280 bytes with a two-byte length, where section A.2.2 of
  NIST SP 800-38C wants a marker and four bytes; below that the encodings agree, and the comment in the
  source says below as well (`CcmSpec.AddTextIsStandard`).
* Sticky requests can fill the table of topics without any request waiting, and the next new kind finds
  no record (`Shadow.FillWithSticky`); fewer than ten kinds that wait or ever were sticky leave room
  (`ShadowTables.FewPairsLeaveRoom`). It matters that they ever were: a later request that is not sticky
  does not bring the topics back (`Shadow.StickyTopicStays`).
* A failed subscription for answers leaves one topic record taken (`Shadow.LeakBreaks`); a request that
  then finds only one free goes on as sent and waits although nothing was subscribed
  (`Shadow.Shadow.SubscribeToAcks`).
* A rejected answer is reported as accepted exactly when the thing's name or what lies behind the topic
  in the buffer holds the word "accepted" (`ShadowStatus.StatusIsAnswerIff`).
* Yield leaves the client in the yield state when a network read returns one of two codes that yield
  uses for itself (`Client.Client.Yield`).

## Model

| member | source | states |
|---|---|---|
| Mpi.Grow | external_libs/mbedTLS/library/bignum.c:114-138 | growing adds zero limbs and keeps the value |
| Mpi.Copy | external_libs/mbedTLS/library/bignum.c:180-209 | the target takes value and sign of the source, which may be itself; an empty source gives an empty positive number; enough limbs are kept |
| Mpi.Lset | external_libs/mbedTLS/library/bignum.c:290-303 | the number becomes the signed integer; all other limbs are zero |
| Mpi.CmpAbs | external_libs/mbedTLS/library/bignum.c:803-828 | the sign of the difference of the magnitudes, whatever leading zero limbs there are |
| Mpi.CmpMpi | external_libs/mbedTLS/library/bignum.c:833-861 | the sign of the difference of the values |
| Mpi.CmpInt | external_libs/mbedTLS/library/bignum.c:866-877 | the sign of the difference with a machine integer |
| Mpi.AddAbs | external_libs/mbedTLS/library/bignum.c:882-933 | the magnitude of the result is the sum of the magnitudes for every aliasing of X with A or B; the carry stays inside the limbs it grows |
| Mpi.SubHlp | external_libs/mbedTLS/library/bignum.c:938-954 | subtracts a limb string in place; the borrow ends inside the number when the result is not negative |
| Mpi.SubAbs | external_libs/mbedTLS/library/bignum.c:959-997 | refused exactly when the result would be negative, with nothing changed; otherwise the difference of the magnitudes, for every aliasing |
| Mpi.AddMpi | external_libs/mbedTLS/library/bignum.c:1002-1028 | the exact sum for every combination of signs, sizes and aliasing |
| Mpi.SubMpi | external_libs/mbedTLS/library/bignum.c:1033-1059 | the exact difference for every combination of signs, sizes and aliasing |
| Mpi.HalfWordProduct | external_libs/mbedTLS/include/mbedtls/bn_mul.h:865-874 | the full product of two limbs from four half-word products, every operation wrapping at the limb width |
| Mpi.MulAddc | external_libs/mbedTLS/include/mbedtls/bn_mul.h:865-877 | one multiply-accumulate step: product plus carry plus limb as two limbs, nothing lost |
| Mpi.MulHlp | external_libs/mbedTLS/library/bignum.c:1104-1163 | adds the product of a limb string and a limb at an offset, the carry loop ending inside the number when the total fits; lower limbs are untouched |
| Mpi.MulMpi | external_libs/mbedTLS/library/bignum.c:1168-1200 | the exact product for every combination of signs, sizes and aliasing |
| Mpi.MulInt | external_libs/mbedTLS/library/bignum.c:1205-1216 | the exact product with one limb |
| Shift.Clz | external_libs/mbedTLS/library/bignum.c:362-375 | the number of leading zero bits, characterized by powers of two |
| Shift.Bitlen | external_libs/mbedTLS/library/bignum.c:380-394 | the n with 2^(n-1) <= value < 2^n, 0 for zero |
| Shift.IsBitLenUnique | external_libs/mbedTLS/library/bignum.c:380-394 | the bit length is determined by that bound |
| Shift.Lsb | external_libs/mbedTLS/library/bignum.c:347-357 | the exponent of the largest power of two that divides a value that is not zero |
| Shift.ShiftL | external_libs/mbedTLS/library/bignum.c:710-755 | the value is multiplied by 2^count exactly, growing as needed |
| Shift.ShiftR | external_libs/mbedTLS/library/bignum.c:760-798 | the magnitude is divided by 2^count, rounding down; the sign stays, except that shifting out everything gives a positive zero |
| IntDiv.HalfDigit | external_libs/mbedTLS/library/bignum.c:1279-1303 | one half-word digit of the wrapping division is the true quotient digit |
| IntDiv.DivNormalized | external_libs/mbedTLS/library/bignum.c:1273-1308 | two half-word digits and the remainder divide the normalized two-limb number exactly although intermediates wrap |
| IntDiv.DivBelow | external_libs/mbedTLS/library/bignum.c:1258-1310 | normalization is undone: true quotient and remainder for every divisor above the high limb |
| IntDiv.IntDivInt | external_libs/mbedTLS/library/bignum.c:1222-1312 | true quotient and remainder below the limit, all ones when the divisor is zero or not above the high limb |
| Div.TruncatingDivision | external_libs/mbedTLS/library/bignum.c:1317-1427 | quotient toward zero and remainder of the dividend's sign satisfy the division identity |
| Div.TruncatingUnique | external_libs/mbedTLS/library/bignum.c:1317-1427 | that identity determines quotient and remainder |
| Div.DigitAtMostOneOver | external_libs/mbedTLS/library/bignum.c:1376-1390 | a digit that passes the test of the leading limbs overshoots by less than one divisor |
| Div.TestAcceptsDigit | external_libs/mbedTLS/library/bignum.c:1376-1390 | the test of the top limbs never rejects the true digit |
| Div.TestBoundsDigit | external_libs/mbedTLS/library/bignum.c:1376-1390 | a digit that passes the test is at most one above the true digit |
| Div.EstimateDigit | external_libs/mbedTLS/library/bignum.c:1367-1390 | first estimate and downward loop end at a digit that passes the test and is not below the true digit |
| Div.SubtractDigit | external_libs/mbedTLS/library/bignum.c:1392-1402 | one add-back suffices: the stored digit is the true digit and the rest is the remainder |
| Div.DigitRound | external_libs/mbedTLS/library/bignum.c:1365-1387 | one round keeps total = digits so far times divisor plus rest, the rest shrinking by one limb |
| Div.DigitLoop | external_libs/mbedTLS/library/bignum.c:1356-1387 | first digit by subtraction and all rounds: dividend = quotient times divisor plus rest below the divisor |
| Div.DivMagnitudes | external_libs/mbedTLS/library/bignum.c:1336-1387 | quotient and scaled-back remainder of the magnitudes |
| Div.DivMpi | external_libs/mbedTLS/library/bignum.c:1317-1427 | error exactly for a zero divisor; otherwise the truncated quotient and the remainder of the dividend's sign, for all operands, with an absent Q or R, and with R allowed to be A or B |
| Div.Reduce | external_libs/mbedTLS/library/bignum.c:1457-1461 | adding and subtracting the modulus ends at the residue |
| Div.ModMpi | external_libs/mbedTLS/library/bignum.c:1448-1466 | errors for negative and zero moduli; otherwise the residue from 0 up to the modulus for every dividend |
| Gcd.StripTwos | external_libs/mbedTLS/library/bignum.c:1834-1835 | dropping factors of two beside an odd number keeps the common divisors |
| Gcd.GcdScale | external_libs/mbedTLS/library/bignum.c:1821-1849 | the common power of two may be divided out and multiplied back |
| Gcd.GcdRound | external_libs/mbedTLS/library/bignum.c:1832-1847 | one round keeps the gcd and makes the sum of the two numbers smaller |
| Gcd.GcdLoop | external_libs/mbedTLS/library/bignum.c:1832-1847 | the loop ends with the gcd |
| Gcd.GcdMpi | external_libs/mbedTLS/library/bignum.c:1810-1857 | the greatest common divisor when B is not zero, 0 when it is; never negative |
| Gcd.GcdCorrectIff | external_libs/mbedTLS/library/bignum.c:1810-1857 | the result is a gcd exactly when B is not zero or A is zero |
| InvMod.CoefficientsHalve | external_libs/mbedTLS/library/bignum.c:1920-1929 | every halving of the coefficient pair is exact after the correction, and the combination stays |
| InvMod.HalveRow | external_libs/mbedTLS/library/bignum.c:1918-1944 | halving a row (T, C1, C2) keeps T = C1*TA + C2*TB |
| InvMod.HalveWhileEven | external_libs/mbedTLS/library/bignum.c:1918-1944 | the row becomes odd, keeps its combination, and stays coprime to the other |
| InvMod.InvRound | external_libs/mbedTLS/library/bignum.c:1916-1959 | one round keeps both combinations and coprimality and makes TU + TV smaller |
| InvMod.InvLoop | external_libs/mbedTLS/library/bignum.c:1916-1959 | the loop ends with TV = 1 as a combination |
| InvMod.ReduceInverse | external_libs/mbedTLS/library/bignum.c:1961-1965 | adding and subtracting N brings the coefficient into range and keeps it an inverse |
| InvMod.InvModMpi | external_libs/mbedTLS/library/bignum.c:1886-1976 | for N other than 1: bad input exactly for N <= 0, success exactly when A and N are coprime, and then the inverse in range; X is unchanged otherwise |
| InvMod.ZeroRowTurns | external_libs/mbedTLS/library/bignum.c:1918-1930 | turns of the inner loop on a row that holds zero leave it at zero, so its lowest limb stays even and the loop goes on |
| InvMod.InvModAtOne | external_libs/mbedTLS/library/bignum.c:1891-1930 | for N = 1 nothing is refused, the residue of A is 0, and after any number of turns the first inner loop goes on |
| InvMod.InverseUnique | external_libs/mbedTLS/library/bignum.c:1886-1976 | an inverse in range is unique |
| Mont.NewtonStep | external_libs/mbedTLS/library/bignum.c:1536-1537 | the Newton step squares the modulus of an inverse |
| Mont.DoubledBits | external_libs/mbedTLS/library/bignum.c:1536-1537 | on wrapping limbs the step doubles the number of correct bits |
| Mont.StartBits | external_libs/mbedTLS/library/bignum.c:1533-1534 | the starting value is right in the low four bits |
| Mont.MontgInit | external_libs/mbedTLS/library/bignum.c:1528-1540 | for odd N the result times N[0] is -1 modulo the base |
| Mont.RoundKeepsState | external_libs/mbedTLS/library/bignum.c:1560-1572 | the Montgomery state after one row: residue relation and bound |
| Mont.MontRound | external_libs/mbedTLS/library/bignum.c:1560-1572 | one row of products clears one limb and keeps the state |
| Mont.MontResult | external_libs/mbedTLS/library/bignum.c:1545-1583 | after all rows the high part is below 2N and congruent to A*B/R |
| Mont.MontMul | external_libs/mbedTLS/library/bignum.c:1545-1583 | a too short T is refused; otherwise the result is below N and times R congruent to A*B modulo N; B may be A |
| Mont.MontRed | external_libs/mbedTLS/library/bignum.c:1588-1597 | the result is below N and times R congruent to A modulo N |
| ExpMod.RepProduct | external_libs/mbedTLS/library/bignum.c:1545-1583 | the product of representatives of x and y represents x*y |
| ExpMod.WindowGrows | external_libs/mbedTLS/library/bignum.c:1743-1749 | how a window takes one more exponent bit: value, size and position agree |
| ExpMod.FlushWindow | external_libs/mbedTLS/library/bignum.c:1751-1762 | a full window's index lies in the upper half of the table and its power is multiplied in |
| ExpMod.AddToWindow | external_libs/mbedTLS/library/bignum.c:1743-1767 | the accumulator holds the base to the exponent prefix before and after a bit joins a window |
| ExpMod.ScanExponent | external_libs/mbedTLS/library/bignum.c:1706-1768 | after the scan the accumulator and the open window account for every exponent bit |
| ExpMod.LeftoverBits | external_libs/mbedTLS/library/bignum.c:1773-1781 | the bits of an unfinished window are multiplied in one by one |
| ExpMod.BuildTable | external_libs/mbedTLS/library/bignum.c:1681-1704 | entry i of the table holds the base to the power i, for the upper half that is used |
| ExpMod.PrepareRR | external_libs/mbedTLS/library/bignum.c:1650-1663 | R^2 mod N is computed once and kept for the caller |
| ExpMod.Power | external_libs/mbedTLS/library/bignum.c:1675-1786 | table, scan, leftover bits and final reduction give the power |
| ExpMod.PowerMod | external_libs/mbedTLS/library/bignum.c:1621-1786 | the power of the magnitude of A for any window size chosen from the exponent |
| ExpMod.ExpModMpi | external_libs/mbedTLS/library/bignum.c:1602-1805 | errors exactly for negative or even N and negative E; for A of sign +1 the result is A^E mod N, for sign -1 it is N minus the power of the magnitude, with X allowed to be A; the kept R^2 stays right and X is unchanged on an error |
| ExpMod.ExpResultNegative | external_libs/mbedTLS/library/bignum.c:1788-1792 | for a negative base -a and odd N the result is the residue of (-a)^E exactly when E is odd and N does not divide a^E |
| ExpMod.ExpResultCoprime | external_libs/mbedTLS/library/bignum.c:1788-1792 | for a negative base coprime to an odd N above 1 the result is right exactly when E is odd |
| ExpMod.CancelFactor | external_libs/mbedTLS/library/bignum.c:1788-1792 | a factor coprime to N cannot make a product divisible by N, so no power of a base coprime to N is |
| ExpMod.NegativeBaseFails | external_libs/mbedTLS/library/bignum.c:1788-1792 | (-2)^2 mod 7 comes out as 3 instead of 4 |
| JsmnSpec.StepAdvances | external_libs/jsmn/jsmn.c:188-318 | every step of the main loop moves forward and stays inside the input |
| JsmnExamples.EscapedCharacters | external_libs/jsmn/jsmn.c:142-168 | after a backslash exactly the eight characters with codes 34, 47, 92, 98, 102, 110, 114 and 116 let the string go on, u being apart; every other one is refused |
| JsmnExamples.UnicodeDigits | external_libs/jsmn/jsmn.c:152-163 | after backslash and u exactly four characters among 0-9, A-F and a-f let the string go on; every other one but NUL is refused |
| JsmnExamples.PrimitiveCharacters | external_libs/jsmn/jsmn.c:72-86 | a primitive ends before NUL, the four blanks, comma, colon and the two closing brackets; the other codes from 33 to 126 may be in it and all others are refused |
| JsmnExamples.OneCharacter | external_libs/jsmn/jsmn.c:181-330 | what each document of one character gives, for every capacity: nothing, one token, or one of the three errors |
| JsmnExamples.NumbersReturned | external_libs/jsmn/jsmn.h:55-62 | the errors are returned as -1, -2 and -3 |
| JsmnExamples.TwoBrackets | external_libs/jsmn/jsmn.c:212-244 | a bracket closed by its own kind gives one token, by the other kind an invalid document |
| JsmnExamples.EscapeInDocument | external_libs/jsmn/jsmn.c:142-168 | a string with one escaped character is one token exactly for the eight characters |
| Jsmn.Parser.AllocToken | external_libs/jsmn/jsmn.c:36-49 | a fresh token while the array has room, otherwise nothing |
| Jsmn.Parser.ScanPrimitive | external_libs/jsmn/jsmn.c:65-109 | the position is where the primitive ends, or unchanged on a bad character |
| Jsmn.Parser.ScanString | external_libs/jsmn/jsmn.c:114-176 | the position is on the closing quote, or unchanged on a bad escape or an unfinished string |
| Jsmn.Parser.ParsePrimitive | external_libs/jsmn/jsmn.c:65-109 | token, position and error for a primitive, with and without a token array |
| Jsmn.Parser.ParseString | external_libs/jsmn/jsmn.c:114-176 | token, position and error for a string, with and without a token array |
| Jsmn.Parser.OpenCase | external_libs/jsmn/jsmn.c:194-211 | an opening bracket is one step of the token-list model or runs out of tokens with nothing changed |
| Jsmn.Parser.CloseCase | external_libs/jsmn/jsmn.c:212-257 | a closing bracket closes the innermost open token and finds the next one, or is refused with nothing changed |
| Jsmn.Parser.CommaCase | external_libs/jsmn/jsmn.c:270-287 | a comma goes back to the innermost open container |
| Jsmn.Parser.LeafCase | external_libs/jsmn/jsmn.c:258-264 | a string or primitive becomes a token counted in its superior |
| Jsmn.Parser.FillChar | external_libs/jsmn/jsmn.c:188-318 | one turn of the main loop is one step of the model, errors leaving the state as it was; the count grows by one exactly when a token is allocated |
| Jsmn.Parser.Fill | external_libs/jsmn/jsmn.c:181-330 | the call with a token array leaves exactly the state and returns the code of the model run, the count kept along the way being the number of tokens |
| Jsmn.Parser.CountOnly | external_libs/jsmn/jsmn.c:181-330 | the call without a token array returns what the counting run returns |
| Jsmn.Parser.Parse | external_libs/jsmn/jsmn.c:181-330 | both modes of the entry point against the two model runs, with the errors by their numbers |
| JsmnProps.StepKeepsShape | external_libs/jsmn/jsmn.c:188-318 | every step keeps spans inside the input, starts increasing, and spans nested or disjoint |
| JsmnProps.StepCountsSizes | external_libs/jsmn/jsmn.c:202-203 | every new token is counted once: in its superior's size or as one without a superior |
| JsmnProps.StepKeepsDenotation | external_libs/jsmn/jsmn.c:188-318 | every step keeps each token on the characters of its kind |
| JsmnProps.RunKeeps | external_libs/jsmn/jsmn.c:181-330 | placement, denotation and the size account hold after a whole run from any good state |
| JsmnProps.SuccessfulParse | external_libs/jsmn/jsmn.c:181-330 | a successful call on a new parser: all tokens closed, starts strictly increasing, spans nested or disjoint and inside the input, each token standing for its text, and sizes plus parentless tokens equal to the returned count |
| JsmnProps.CountFollowsRun | external_libs/jsmn/jsmn.c:181-330 | counting agrees with filling as long as filling goes on, and a run out of tokens means the count is larger |
| JsmnProps.TwoPasses | external_libs/jsmn/jsmn.c:181-330 | the count of a first pass is exactly the number of tokens the second pass needs and delivers |
| JsmnProps.ResumeAfterNoMem | external_libs/jsmn/jsmn.c:181-330 | going on with a longer array after running out ends exactly where one run with the longer array ends |
| JsmnProps.ScanFindsTop | external_libs/jsmn/jsmn.c:236-255 | the downward scan for an open token finds the top of the bracket stack |
| JsmnProps.StepIsStackStep | external_libs/jsmn/jsmn.c:194-257 | the flat array works as a stack: brackets push and pop, other characters leave it, and a pop makes the new top superior |
| JsmnRender.ScanPieces | external_libs/jsmn/jsmn.c:114-176 | a written string with escapes and Unicode escapes is scanned to its end |
| JsmnRender.RunItems | external_libs/jsmn/jsmn.c:181-330 | running over the members of an array adds their tokens and counts them in the array |
| JsmnRender.RunFields | external_libs/jsmn/jsmn.c:181-330 | running over the members of an object counts keys in the object and values in their keys |
| JsmnRender.RunValue | external_libs/jsmn/jsmn.c:181-330 | running over any written value appends exactly its tokens and restores the superior token of its surroundings |
| JsmnRender.ParseRendered | external_libs/jsmn/jsmn.c:181-330 | parsing the text of any document, with any blanks, succeeds and delivers exactly the document's tokens: kinds, spans, order, sizes and count |
| JsmnPrefix.StringCut | external_libs/jsmn/jsmn.c:114-176 | on a cut input a string is found unfinished, or as in the whole input |
| JsmnPrefix.PrimitiveCut | external_libs/jsmn/jsmn.c:65-86 | on a cut input a primitive is found as in the whole one, or it is cut where it goes on and taken for finished |
| JsmnPrefix.StepCut | external_libs/jsmn/jsmn.c:188-318 | one step on a cut input: the same step, a request for more input, an error in both, or a token for part of a primitive |
| JsmnPrefix.RunKeepsPlaces | external_libs/jsmn/jsmn.c:181-330 | a token that has been closed keeps its kind and place for the rest of the run |
| JsmnPrefix.ResumeAfterCut | external_libs/jsmn/jsmn.c:181-330 | a call on the beginning of an input and then one on the whole of it leave the same parser, tokens and code as a single call exactly when the first did not end inside a primitive |
| JsmnPrefix.PiecesLeaveNoTrace | external_libs/jsmn/jsmn.c:181-330 | an input that arrives in any number of pieces, each ending before a delimiter, gives what a single call gives |
| JsmnPrefix.CutWord | external_libs/jsmn/jsmn.c:65-105 | the word true cut in the middle gives two tokens instead of one |
| JsmnPrefix.OpenAtCut | external_libs/jsmn/jsmn.c:320-327 | while the outermost container is open at the cut the call asks for more input |
| JsmnPrefix.CutDocument | external_libs/jsmn/jsmn.h:55-62 | any string, array or object cut anywhere asks for more input, never being called invalid; before its first character there is nothing, behind its last one all its tokens |
| Topic.LevelsJoin | src/aws_iot_mqtt_client_common_internal.c:420-422 | levels contain no separator and join to the topic, so the split is the right one |
| Topic.IsTopicMatched | src/aws_iot_mqtt_client_common_internal.c:423-457 | for a well-formed filter and any name the pointer walk decides the level-by-level match |
| Topic.ClientMatchIff | src/aws_iot_mqtt_client_common_internal.c:423-457 | the level-by-level match is the standard's match with every wildcard covered, for level lists |
| Topic.MatcherIsStandardWhenCovered | src/aws_iot_mqtt_client_common_internal.c:423-457 | the code accepts exactly the standard's matches in which each wildcard stands against an existing level that is not empty |
| Topic.MatcherOnFullLevels | src/aws_iot_mqtt_client_common_internal.c:423-457 | for names without empty levels: the standard's match with '#' as one or more levels |
| TopicExamples.NarrowerThanStandard | src/aws_iot_mqtt_client_common_internal.c:423-457 | two matches of the standard that the code refuses |
| Wire.WriteLen | src/aws_iot_mqtt_client_common_internal.c:56-72 | the loop writes the base-128 encoding at the pointer and nothing else |
| Wire.ReadLen | src/aws_iot_mqtt_client_common_internal.c:80-104 | value and size of the length field, or an error after four continued bytes |
| Wire.DecodeEncoded | src/aws_iot_mqtt_client_common_internal.c:56-104 | decoding gives an encoded number back exactly when it fits the number of digits allowed, otherwise an error |
| Wire.LengthRoundTrip | src/aws_iot_mqtt_client_common_internal.c:56-104 | lengths survive exactly below 2^28 |
| Wire.DecodedIsEncoded | src/aws_iot_mqtt_client_common_internal.c:80-104 | a decoded field is the encoder's own exactly when it has no superfluous zero digit |
| Wire.FinalLengthEnough | src/aws_iot_mqtt_client_common_internal.c:106-119 | the buffer size asked for holds header, length field and rest exactly when the rest is below 2^28, and is at most one byte more |
| Wire.ReadNetworkLen | src/aws_iot_mqtt_client_common_internal.c:318-347 | from the network a length is read as long as digits continue, and its value comes out modulo 2^64; too many digits are never refused |
| Wire.NetworkAgreesIff | src/aws_iot_mqtt_client_common_internal.c:80-104 | that agrees with the decoder of lengths in a buffer exactly up to four digits, beyond which the decoder refuses |
| Wire.FiveDigits | src/aws_iot_mqtt_client_common_internal.c:327-345 | five digits that the decoder refuses and the network reader accepts |
| Wire.WriteUint16 | src/aws_iot_mqtt_client_common_internal.c:144-149 | two bytes, most significant first |
| Wire.WriteString | src/aws_iot_mqtt_client_common_internal.c:172-179 | length and bytes of a string and nothing else |
| Publish.InitHeader | src/aws_iot_mqtt_client_common_internal.c:187-265 | unknown types refused; other types, QoS and flags packed into the header byte |
| Publish.HeaderFields | src/aws_iot_mqtt_client_common_internal.c:187-265 | all four fields are read back from a packed header byte |
| Publish.HeaderFromFields | src/aws_iot_mqtt_client_common_internal.c:187-265 | a header byte with QoS 0 or 1 is determined by its fields |
| Publish.WriteBody | src/aws_iot_mqtt_client_publish.c:119-128 | topic, packet id when there is one, and payload are written in this order |
| Publish.MeasureRemaining | src/aws_iot_mqtt_client_publish.c:101-108 | the remaining length comes out modulo 2^32 |
| Publish.CheckedFits | src/aws_iot_mqtt_client_publish.c:104-111 | with a buffer below 2^28 bytes, a packet that passes the size check fits the buffer and its four-byte length field exactly when the remaining length is below 2^32 - 5 |
| Publish.WrappedCheckPasses | src/aws_iot_mqtt_client_publish.c:104-111 | a one-byte topic and 2^32 bytes of payload pass the check for five bytes |
| Publish.SerializePublish | src/aws_iot_mqtt_client_publish.c:87-133 | refused exactly when the wrapped size check fails, with nothing written; otherwise, when what is written fits the buffer, the packet is there, its length reported and not above the size asked for, and nothing else changed |
| Publish.ReadStringWithLen | src/aws_iot_mqtt_client_publish.c:52-69 | a string is accepted exactly when its length and bytes lie before the end |
| Publish.DeserializePublish | src/aws_iot_mqtt_client_publish.c:312-372 | the pointer walk computes the parsing function: every refusal, every field, and where topic and payload lie |
| Publish.PayloadInside | src/aws_iot_mqtt_client_publish.c:356-369 | the reported payload ends inside the buffer exactly when the packet has QoS 0 or its packet id ends before the packet does |
| Publish.PayloadOfReceived | src/aws_iot_mqtt_client_publish.c:312-372 | the same condition for every parsed packet |
| Publish.PayloadOutside | src/aws_iot_mqtt_client_publish.c:363-369 | a QoS 1 packet of four bytes with an empty topic and no packet id is accepted with a payload of 2^64 - 2 bytes |
| Publish.TopicInside | src/aws_iot_mqtt_client_publish.c:356-361 | the topic of a parsed packet lies in the buffer, behind its first four bytes |
| Publish.SerializedIsRecovered | src/aws_iot_mqtt_client_publish.c:87-372 | deserializing a serialized packet gives back DUP, QoS, RETAIN, packet id, topic and payload |
| Publish.ReceivedIsSerialized | src/aws_iot_mqtt_client_publish.c:87-372 | a received packet with QoS 0 or 1, a minimal length field and room for its packet id is the serialization of what was parsed |
| PublishExamples.AcceptedIff | src/aws_iot_mqtt_client_publish.c:312-372 | a packet is accepted, whatever its flags, exactly when its type is 3, its length field has at most four digits and its topic fits the remaining length; the refusals are told apart |
| PublishExamples.FlagsReceived | src/aws_iot_mqtt_client_common_internal.c:220-262 | the first byte is its type times 16, DUP times 8, QoS times 2 and RETAIN |
| PublishExamples.PacketParsed | src/aws_iot_mqtt_client_publish.c:312-372 | what is parsed from every such packet, QoS 2 and 3 included: flags, packet id for every QoS but 0, and where topic and payload lie |
| PublishExamples.OnePacket | src/aws_iot_mqtt_client_publish.c:87-133 | one message byte by byte, for every flag |
| Acks.DeserializeAck | src/aws_iot_mqtt_client_publish.c:384-425 | the pointer walk computes the parsing function: every refusal and the packet id |
| Acks.DeserializeUnsuback | src/aws_iot_mqtt_client_unsubscribe.c:103-115 | the same with the packet type checked |
| Acks.DeserializeSuback | src/aws_iot_mqtt_client_subscribe.c:116-170 | the granted codes are collected, the third being one too many |
| Acks.DeserializeConnack | src/aws_iot_mqtt_client_connect.c:249-296 | exactly two bytes, the second being the return code |
| Acks.SubackAcceptedIff | src/aws_iot_mqtt_client_subscribe.c:159-169 | a SUBACK is accepted exactly when it has at most two granted codes, whatever they are, the refusal 0x80 among them, and whatever its packet id is |
| Acks.AcksAccepted | src/aws_iot_mqtt_client_publish.c:384-425 | PUBACK and UNSUBACK are accepted with any packet id, and a PUBACK is no UNSUBACK |
| Acks.ConnackCode | src/aws_iot_mqtt_client_connect.c:287-298 | the return code of a connect is the second byte behind the length |
| Client.Client.constructor | src/aws_iot_mqtt_client.c:155-224 | a new client is initialized with free slots and an arbitrary, uninitialized wait interval and read buffer |
| Client.Client.SetState | src/aws_iot_mqtt_client.c:94-127 | compare and set of the client state |
| Client.Client.NextPacketId | src/aws_iot_mqtt_client.c:226-229 | packet ids run from 1 to 65535 and start over, never 0 |
| Client.Client.SendPacket | src/aws_iot_mqtt_client_common_internal.c:267-316 | what is sent is recorded with the code of sending it |
| Client.Client.RefusedCall | src/aws_iot_mqtt_client_connect.c:589-602 | inside a handler connecting, reconnecting, resubscribing and yielding are refused with their codes and change no state |
| Client.Client.AcceptedCall | src/aws_iot_mqtt_client_publish.c:262-295 | inside a handler publish, subscribe and unsubscribe return in the callback state |
| Client.Client.CallBack | src/aws_iot_mqtt_client_common_internal.c:472-476 | every call that a message handler makes is entered in the callback state and returns in it |
| Client.Client.RunHandler | src/aws_iot_mqtt_client_common_internal.c:486-490 | the handler starts, for the slot that was just chosen; whatever calls it makes, to any depth, and whatever they read into the buffer, the client is in the callback state afterwards |
| Client.Client.Matches | src/aws_iot_mqtt_client_common_internal.c:481-485 | a slot is chosen exactly when its filter is the topic or matches it level by level |
| Client.Client.DeliverToSlot | src/aws_iot_mqtt_client_common_internal.c:480-492 | one slot is compared with what the read buffer holds at the topic's place by then; the handler of a chosen one runs right after, and nothing happens for another one |
| Client.Client.Deliver | src/aws_iot_mqtt_client_common_internal.c:459-497 | all slots are looked at in index order as they are at that time, each with the text then lying at the topic's place; the handler of every chosen slot and of no other runs right after, to any nesting; when handlers call nothing, exactly this happened with the message's own topic; the state is restored |
| ClientSpec.BufferSince | src/aws_iot_mqtt_client_common_internal.c:403-412 | each byte of the read buffer is what the last read that covered it wrote there |
| ClientSpec.OwnTopicIff | src/aws_iot_mqtt_client_common_internal.c:480-485 | a slot is compared with the message's own topic exactly when, of each byte of it, the last read since the delivery began that covered it wrote the same byte again |
| ClientSpec.OwnTopicThroughout | src/aws_iot_mqtt_client_common_internal.c:480-485 | when what handlers read meanwhile ends before the topic, every slot is compared with the message's own topic |
| ClientSpec.ShortReadsDoNoHarm | src/aws_iot_mqtt_client_common_internal.c:480-485 | so it is when every packet read meanwhile has at most four bytes, as PUBACK and UNSUBACK have |
| Client.Client.SubackSpoilsTopic | src/aws_iot_mqtt_client_common_internal.c:478-493 | two slots with the filter of the message, whose first handler subscribes: the SUBACK that is read changes the topic and the second handler does not run |
| ClientSpec.CompletePacketIsLegal | src/aws_iot_mqtt_client_common_internal.c:402-412 | a complete packet with two bytes of buffer behind it meets what the model asks of a read |
| Client.Client.HandleMessage | src/aws_iot_mqtt_client_common_internal.c:522-545 | a PUBACK with the message's packet id is sent after the last slot exactly when the QoS is above 0, and its code is returned |
| Client.Client.HandlePublish | src/aws_iot_mqtt_client_common_internal.c:499-546 | what the deserializer finds in the read buffer decides: a message is delivered to all slots and then, exactly when its QoS is above 0, answered by a PUBACK with its packet id; one that does not parse changes nothing and its code is returned; the client state is kept |
| Client.Client.CycleRead | src/aws_iot_mqtt_client_common_internal.c:548-612 | return code, buffer and packet type for everything the network may give, a failed read leaving the type alone; exactly a message that parses is delivered, anything else leaves table and history alone; a lost network is reported exactly when the read says so; the client state is kept |
| Client.Client.WaitForRead | src/aws_iot_mqtt_client_common_internal.c:615-640 | waiting for an answer keeps the client state whatever arrives meanwhile and ends in one of three ways, each with its code: the answer is the packet read last, the timer ran out, or the network is gone |
| Client.Client.Publish | src/aws_iot_mqtt_client_publish.c:209-295 | refused unless connected and idle or in a handler; otherwise a PUBLISH packet with its topic and, for QoS 1, the next packet id is sent before anything else; with QoS 0 the code of sending is returned; with QoS 1 success means that the packet read last is an accepted PUBACK, and a failure is that of sending, waiting or the PUBACK; the client state on return is the state on entry |
| ClientSpec.ExchangeSucceeded | src/aws_iot_mqtt_client_publish.c:222-240 | a successful exchange: the request went out at once, and the packet read last is an answer that its deserializer accepts |
| ClientExamples.AnyPubackSucceeds | src/aws_iot_mqtt_client_publish.c:229-240 | a PUBACK for any packet id ends the wait of a publish with success |
| ClientExamples.StateKinds | src/aws_iot_mqtt_client_connect.c:331-362 | the states by what they let through: connected, valid for connecting, and three that are neither |
| Client.Client.FreeIndex | src/aws_iot_mqtt_client_subscribe.c:173-185 | the first free slot, or the number of slots |
| Client.Client.Subscribe | src/aws_iot_mqtt_client_subscribe.c:203-322 | as publish, with a SUBSCRIBE for the filter answered by a SUBACK; success means that this answer was read last and accepted, and then writes the handler into the slot that was first free on entry, of whatever table there is by then; without a free slot nothing is sent and the call fails |
| ClientExamples.RefusedSubscriptionSucceeds | src/aws_iot_mqtt_client_subscribe.c:244-267 | a SUBACK that carries the refusal 0x80, for any packet id, is a success, so the subscription is stored |
| ClientSpec.StoredMeanwhile | src/aws_iot_mqtt_client_subscribe.c:228-262 | a subscription stored while an outer call waits is overwritten by it exactly when it went to the slot that was first free when the outer call began |
| ClientSpec.SameFirstFree | src/aws_iot_mqtt_client_subscribe.c:173-185 | it goes there exactly when the slots below are still taken and that one is still free |
| ClientSpec.NestedSubscribeLost | src/aws_iot_mqtt_client_subscribe.c:228-262 | of two calls, the inner one made by a handler while the outer one waits, the inner subscription is in no slot afterwards |
| Client.Client.Unsubscribe | src/aws_iot_mqtt_client_unsubscribe.c:133-244 | as publish, with an UNSUBSCRIBE answered by an UNSUBACK; success means that this answer was read last and accepted, and then frees exactly the slots with the filter, of whatever table there is by then; a filter that no slot has fails with nothing sent |
| Client.Client.RequestAgain | src/aws_iot_mqtt_client_subscribe.c:352-381 | one slot is requested again, whatever it holds by then: a SUBSCRIBE with its filter is sent at once and answered by a SUBACK |
| Client.Client.InternalResubscribe | src/aws_iot_mqtt_client_subscribe.c:337-385 | the slots before the first free one are requested again in index order, as they are at that time, each by an exchange that follows the one before; all but the last succeed, and the code is that of the last; success means all of those; when no handler calls anything they hold the subscriptions of the table on entry |
| ClientSpec.FreeAtItsTurnIff | src/aws_iot_mqtt_client_subscribe.c:351-359 | a slot occupied on entry is free at its turn exactly when it was freed since and not filled again |
| ClientSpec.FreedSlotIsRequested | src/aws_iot_mqtt_client_subscribe.c:351-359 | two subscriptions, the second dropped by a handler during the first one's turn: the free slot is requested all the same |
| Client.Client.Resubscribe | src/aws_iot_mqtt_client_subscribe.c:400-432 | refused with nothing done unless idle; otherwise as above, also for which subscriptions are requested, and the client state on return is the state on entry |
| ClientSpec.ResubscribeReachesAll | src/aws_iot_mqtt_client_subscribe.c:349-351 | that reaches every subscription exactly when no free slot precedes an occupied one |
| ClientSpec.ResubscribeMissesLater | src/aws_iot_mqtt_client_subscribe.c:349-351 | after the earlier of two subscriptions is dropped, the later one is not requested again |
| Client.Client.Connect | src/aws_iot_mqtt_client_connect.c:377-482 | refused with nothing sent in the middle of a connection; otherwise idle on success and disconnected by error on failure; once parameters and network are ready a CONNECT is sent and success means that the packet read last is a CONNACK that accepts, after which no ping is outstanding |
| ClientExamples.ConnackCodes | src/aws_iot_mqtt_client_connect.c:297-319 | the code of a connect for each return code of a CONNACK: 0, -37 to -41, and -36 for all others |
| Client.Client.Disconnect | src/aws_iot_mqtt_client_connect.c:495-574 | not connected: refused with nothing sent; otherwise a DISCONNECT is sent, manually disconnected when that and giving up the network succeed, and unchanged with the code of what failed |
| Client.Client.AttemptReconnect | src/aws_iot_mqtt_client_connect.c:589-617 | from a disconnected state: pending again after a connect that failed, or idle after an exchange of CONNECT and CONNACK, after which the slots before the first free one of the table by then are requested again, all of them when it reports success and otherwise up to the request that fails, of which there is at least one; refused elsewhere with nothing sent |
| Client.Client.HandleDisconnect | src/aws_iot_mqtt_client_yield.c:47-71 | the client ends disconnected by error whatever the disconnect did; a DISCONNECT is sent exactly when it was connected |
| Client.Client.FailRound | src/aws_iot_mqtt_client_yield.c:102-106 | a failed round is recorded and doubles the wait |
| Client.Client.HandleReconnect | src/aws_iot_mqtt_client_yield.c:74-109 | nothing happens before the timer expires; then a round with the present wait begins; with the line up the next thing is a CONNECT, with the line down nothing; unless the round ends with the client back in the yield state it is recorded as failed and the wait is doubled, the maximum being reported as soon as it is passed |
| Client.Client.KeepAlive | src/aws_iot_mqtt_client_yield.c:111-159 | the client is given up exactly when a ping is due while one is outstanding or while none can be sent; otherwise the state is kept, and a ping is outstanding exactly when it was or one was sent; a PINGREQ is sent exactly when one is due, fits and none is outstanding |
| Client.Client.CountLoss | src/aws_iot_mqtt_client_yield.c:211-229 | a lost connection is counted, and with reconnect on the wait of 1000 starts and the loss is recorded |
| Client.Client.YieldRead | src/aws_iot_mqtt_client_yield.c:198-235 | the connection is lost exactly when reading gives one of four codes or keep-alive gives up; with reconnect on the loss is counted and recorded and starts a wait of 1000, otherwise the loop ends disconnected by error; code, state, count and ping for every other outcome |
| Client.Client.InternalYield | src/aws_iot_mqtt_client_yield.c:180-240 | the loop keeps the back-off invariant and reads at least once; beyond the maximum wait it gives up at once with nothing changed; a client that ends disconnected or has just lost its connection returns the code that says so |
| Client.Client.Yield | src/aws_iot_mqtt_client_yield.c:261-306 | refused with nothing changed in the states listed; otherwise it reads at least once from the idle state, the client ends idle, pending or disconnected by error with the codes that go with it, success meaning idle, and it stays in the yield state exactly when the last read was made in it and returned one of two codes |
| Client.Client.Session | src/aws_iot_mqtt_client_yield.c:261-306 | over any sequence of calls with any nesting of handlers the client rests between calls in one of five states, unless a yield met an unexpected read; in the whole history every round after k failed ones since the last loss waited 1000 * 2^k, handlers ran only for slots just chosen, and handler calls kept the state |
| ClientSpec.WaitDoubles | src/aws_iot_mqtt_client_yield.c:98-104 | within the maximum wait at most seven rounds have failed, and one more doubles it |
| ClientSpec.EightRounds | src/aws_iot_mqtt_client_yield.c:98-104 | the wait exceeds the maximum exactly after eight failed rounds |
| ShadowTables.TopicInjective | src/aws_iot_shadow_records.c:143-169 | different requests or answers never share a topic, whatever the thing names |
| ShadowCalls.TopicNames | src/aws_iot_shadow_records.c:143-169 | the topics of answers and of requests, spelled out |
| ShadowCalls.RequestIsNoAnswer | src/aws_iot_shadow_records.c:143-169 | no request goes out on a topic on which answers are awaited |
| ShadowTables.AwaitedIsSubscribed | src/aws_iot_shadow_records.c:250-288 | while a request waits both its topics are live, with a count at least the number of waiting requests, and equal to it for a kind never requested sticky |
| ShadowTables.PairStep | src/aws_iot_shadow_records.c:250-400 | a step on one pair of topics and one kind of request keeps the tables consistent, the kind possibly becoming sticky |
| ShadowTables.LivePairs | src/aws_iot_shadow_records.c:132-141 | the live topics are as many different pairs of kind and answer, of kinds that wait or ever were sticky |
| ShadowTables.FewPairsLeaveRoom | src/aws_iot_shadow_records.c:132-141 | while fewer than ten kinds of request wait or ever were sticky, two topic records are free |
| ShadowTables.FreeAckLeavesRoom | src/aws_iot_shadow_records.c:132-141 | without sticky requests a free waiting record implies two free topic records |
| ShadowTables.PairedEven | src/aws_iot_shadow_records.c:332-367 | topics that come with their partners are even in number |
| ShadowTables.OneFreeMeansTwo | src/aws_iot_shadow_records.c:339-342 | in consistent tables, sticky topics included, one free topic record implies a second, so the search for two finds both or none |
| Shadow.Shadow.constructor | src/aws_iot_shadow_records.c:290-302 | empty tables are consistent |
| Shadow.Shadow.NextFreeTopic | src/aws_iot_shadow_records.c:132-141 | takes the first free topic record, or none |
| Shadow.Shadow.FindTopic | src/aws_iot_shadow_records.c:238-248 | the first live record of a topic, or none |
| Shadow.Shadow.IsSubscriptionPresent | src/aws_iot_shadow_records.c:304-330 | true exactly when both topics are live |
| Shadow.Shadow.SubscribeToAcks | src/aws_iot_shadow_records.c:332-382 | with two free records both topics are subscribed, the second after the first, and become live with count 1 and nothing else changes, or, when a call fails, its code is returned and only the first record is free again; with one free record nothing changes and success is returned |
| Shadow.LeakBreaks | src/aws_iot_shadow_records.c:369-379 | a failed subscription leaves one more record taken, and the tables are not consistent afterwards |
| Shadow.Shadow.IncrementCount | src/aws_iot_shadow_records.c:384-400 | exactly the records of the two topics are counted once more |
| Shadow.Shadow.UnsubscribeFromAcceptedAndRejected | src/aws_iot_shadow_records.c:250-288 | each of the two topics loses one count, the last of a topic that is not sticky being unsubscribed and freeing its record |
| Shadow.Shadow.UnsubscribeTopic | src/aws_iot_shadow_records.c:261-274 | one count fewer; the last one of a topic that is not sticky unsubscribes it, and its record is kept when that fails |
| Shadow.Shadow.NextFreeAck | src/aws_iot_shadow_records.c:421-438 | the first free waiting record, or none |
| Shadow.Shadow.InternalAction | src/aws_iot_shadow_actions.c:32-76 | keeps the tables consistent while MQTT calls succeed; fails with nothing changed and nothing called when no waiting record is free; otherwise the MQTT calls it makes are stated for every case: the topics it needs are subscribed, then the request is published once, last, on its own topic, and the code of that is returned; a request waits in a free record exactly when it was published with success; what becomes of the topics is stated for every case, failures included |
| Shadow.Shadow.AckStatus | src/aws_iot_shadow_records.c:180-236 | an answer finishes the first waiting request with its token, if there is one, releases its topics with the calls that takes, and reports the status that the text at the topic's place tells; the tables stay consistent |
| ShadowStatus.ContainsConcat | src/aws_iot_shadow_records.c:216-219 | a word is in two texts put together exactly when it is in one of them or across the seam |
| ShadowStatus.StatusIsAnswerIff | src/aws_iot_shadow_records.c:215-220 | the status is that of the topic exactly when the answer was accepted or neither the thing's name nor what lies behind the topic holds the word accepted |
| ShadowStatus.RejectedTakenAsAccepted | src/aws_iot_shadow_records.c:215-220 | a rejected answer for a thing named accepted counts as accepted |
| Shadow.Shadow.HandleExpiredResponses | src/aws_iot_shadow_records.c:453-467 | exactly the requests whose timers have run out are finished, their topics released; the tables stay consistent |
| Shadow.Session | src/aws_iot_shadow_actions.c:32-76 | over any run of requests, answers and timeouts, as long as MQTT calls succeed, the tables stay consistent and exactly the live topics are subscribed: always without sticky topics, and with them while the table of topics is not full |
| Shadow.RequestAndAnswer | src/aws_iot_shadow_actions.c:32-76 | one request answered at once: what the tables hold afterwards, sticky or not |
| Shadow.FillWithSticky | src/aws_iot_shadow_records.c:332-400 | ten sticky requests of different kinds, each answered at once: consistent tables without a waiting request and without a free topic record, so that any other kind finds none |
| Shadow.StickyTopicStays | src/aws_iot_shadow_records.c:250-288 | a sticky and then a plain request of one kind, both answered: the topics stay with count 1, neither sticky nor waited for |
| Shadow.NewPairKeeps | src/aws_iot_shadow_records.c:332-382 | a first request of its kind keeps the tables consistent |
| Shadow.CountedPairKeeps | src/aws_iot_shadow_records.c:384-400 | a further request of a kind keeps the tables consistent, the 8-bit count not wrapping |
| Shadow.ReleaseKeeps | src/aws_iot_shadow_records.c:250-288 | finishing a request keeps the tables consistent |
| Shadow.RequestMirrored | src/aws_iot_shadow_records.c:332-400 | after a request exactly the live topics are subscribed when they were before |
| Shadow.ReleaseMirrored | src/aws_iot_shadow_records.c:250-288 | a finished request gives up exactly the topics that leave the table |
| CcmSpec.CryptTwice | external_libs/mbedTLS/library/ccm.c:127-132 | counter mode with the same nonce and counters undoes itself |
| CcmSpec.DecryptOfEncrypt | external_libs/mbedTLS/library/ccm.c:137-349 | the ciphertext of a legal encryption is legal input, decrypts to the plaintext and reproduces the tag |
| CcmSpec.CountersDiffer | external_libs/mbedTLS/library/ccm.c:244-299 | the counters used for a payload and its tag are all different, so the counter does not wrap |
| CcmSpec.AddTextIsStandard | external_libs/mbedTLS/library/ccm.c:155-212 | the length in front of the additional data is the one of section A.2.2 of NIST SP 800-38C exactly below 65280 bytes; at 65280 both encodings are given |
| CcmSpec.FormattedInjective | external_libs/mbedTLS/library/ccm.c:170-232 | the authenticated blocks determine nonce, additional data, payload and tag length (section 5.4 of NIST SP 800-38C) |
| CcmLayout.FirstBlockFields | external_libs/mbedTLS/library/ccm.c:170-193 | bit 6 of the first byte tells whether there is additional data, bits 5 to 3 hold (t - 2) / 2 and bits 2 to 0 hold q - 1; then come the nonce and the length, most significant byte first |
| CcmLayout.CounterBlockFields | external_libs/mbedTLS/library/ccm.c:234-247 | a counter block: five zero bits and q - 1, the nonce, and the counter, most significant byte first |
| CcmLayout.BigEndianValue | external_libs/mbedTLS/library/ccm.c:189-190 | the length bytes read as a number are the length modulo 256^q |
| CcmLayout.BlocksAt | external_libs/mbedTLS/library/ccm.c:204-232 | byte k of block j is byte 16j + k of the text, or a zero behind its end |
| CcmLayout.XorBit | external_libs/mbedTLS/library/ccm.c:115-132 | the combination of two bytes is their exclusive or in every bit |
| CcmLayout.MacChain | external_libs/mbedTLS/library/ccm.c:115-120 | the first block goes through the cipher as it is, and every further one combined with the result so far (section 6.1 of NIST SP 800-38C) |
| CcmLayout.CountersUsed | external_libs/mbedTLS/library/ccm.c:244-299 | byte k of the payload is masked with byte k % 16 of the encrypted counter 1 + k / 16, the tag with counter 0 |
| CcmLayout.StandardExamples | external_libs/mbedTLS/library/ccm.c:170-193 | first and counter blocks of the three examples of appendix C of NIST SP 800-38C |
| CcmLayout.LengthsAccepted | external_libs/mbedTLS/library/ccm.c:155-193 | lengths are accepted exactly when the tag has 4, 6, .. 16 bytes, the nonce 7 to 13, the additional data at most 65280 and the payload fewer than 2^(8q) |
| Ccm.UpdateCbcMac | external_libs/mbedTLS/library/ccm.c:115-120 | one CBC-MAC step in place |
| Ccm.CtrCrypt | external_libs/mbedTLS/library/ccm.c:127-132 | the bytes of one block are masked, source and target possibly the same array |
| Ccm.IncrementBigEndian | external_libs/mbedTLS/library/ccm.c:287-289 | incrementing with carry turns counter i into counter i+1 |
| Ccm.IncrementCounter | external_libs/mbedTLS/library/ccm.c:287-289 | the carry loop increments the last q bytes |
| Ccm.WriteLength | external_libs/mbedTLS/library/ccm.c:189-193 | the length is written big-endian, and refused exactly when it does not fit |
| Ccm.FirstBlock | external_libs/mbedTLS/library/ccm.c:182-193 | the first block of the standard, whose fields CcmLayout gives; refused exactly when the length does not fit |
| Ccm.MacAdditional | external_libs/mbedTLS/library/ccm.c:204-232 | the additional data with its length in front goes through the CBC-MAC block by block |
| Ccm.ProgressStep | external_libs/mbedTLS/library/ccm.c:259-282 | what one block does to output, counter and CBC-MAC in both modes |
| Ccm.CryptPayload | external_libs/mbedTLS/library/ccm.c:255-290 | after the loop the output is the input in counter mode and the CBC-MAC has taken the plaintext, in both modes and also in place |
| Ccm.WriteTag | external_libs/mbedTLS/library/ccm.c:295-299 | the CBC-MAC masked with counter 0, cut to the tag length, appears where the tag is wanted and nothing else changes there |
| Ccm.AuthCrypt | external_libs/mbedTLS/library/ccm.c:137-302 | bad lengths refused with nothing written; otherwise output and then tag of the standard, nothing beyond them changed, for any sharing of memory between input, output and tag |
| Ccm.EncryptAndTag | external_libs/mbedTLS/library/ccm.c:307-315 | ciphertext and tag of the standard, the tag possibly behind the ciphertext in the same buffer |
| Ccm.TagsDiffer | external_libs/mbedTLS/library/ccm.c:336-339 | the accumulated difference is zero exactly for equal tags |
| Ccm.AuthDecrypt | external_libs/mbedTLS/library/ccm.c:320-349 | success with the plaintext exactly when the tag is right, otherwise a wiped output; nothing beyond the output changed; a tag laid under the output is read after the output was written |
| Ccm.RoundTrip | external_libs/mbedTLS/library/ccm.c:307-349 | encrypting in place with the tag behind the ciphertext and decrypting returns success and the original text for every block function |
| Base64Spec.TableIsAlphabet | external_libs/mbedTLS/library/base64.c:44-53 | the encoding table is the alphabet of the standard in order, with the padding character |
| Base64Spec.TablesInverse | external_libs/mbedTLS/library/base64.c:44-70 | the two tables are inverse to each other |
| Base64Spec.EncodedSize | external_libs/mbedTLS/library/base64.c:90-98 | four characters for every three bytes begun |
| Base64Spec.PourSize | external_libs/mbedTLS/library/base64.c:204-219 | how many bytes the second pass writes for any accepted symbols |
| Base64Spec.AnnouncedLength | external_libs/mbedTLS/library/base64.c:195-196 | the first pass never announces less than the second writes, and exactly as much when the symbols beyond full groups are all padding |
| Base64Spec.PourEncoded | external_libs/mbedTLS/library/base64.c:77-224 | the symbols of any bytes are accepted padding and give the bytes back |
| Base64Spec.ScanIsSignificant | external_libs/mbedTLS/library/base64.c:152-187 | the second pass reads exactly the symbols the first pass accepted |
| Base64Accepts.AcceptedIff | external_libs/mbedTLS/library/base64.c:152-187 | a text is accepted exactly when every space is followed by a space, a line end or the end, every carriage return by a line feed, everything else is of the alphabet, and at most two padding characters stand at the end of the symbols |
| Base64Spec.BreaksAnywhere | external_libs/mbedTLS/library/base64.c:152-187 | any number of LF or CR LF anywhere among symbols does not change what is read |
| Base64Spec.InsertBreak | external_libs/mbedTLS/library/base64.c:152-187 | a line break put into any accepted text is ignored, except that CR LF between a CR and its LF makes the text invalid |
| Base64Spec.DecodeOfEncode | external_libs/mbedTLS/library/base64.c:77-224 | decoding an encoded text with any line breaks in it is accepted, announces the length of the source and gives the source back |
| Base64.Encode | external_libs/mbedTLS/library/base64.c:77-139 | size errors with the size needed; otherwise the text and a terminating zero, nothing beyond changed |
| Base64.CheckText | external_libs/mbedTLS/library/base64.c:152-187 | the first pass accepts exactly the texts of the scanning function and counts symbols and padding |
| Base64.LowBits | external_libs/mbedTLS/library/base64.c:210 | the 32-bit accumulator keeps the bits of the current group |
| Base64.GroupBytes | external_libs/mbedTLS/library/base64.c:212-218 | the bytes shifted out of the accumulator are those of the four symbols |
| Base64.DeliverText | external_libs/mbedTLS/library/base64.c:204-219 | the second pass writes the bytes of the symbols and nothing else |
| Base64.Decode | external_libs/mbedTLS/library/base64.c:144-224 | invalid text and too small targets refused with nothing written; otherwise the bytes of the text, never more than announced |
| Base64.RoundTrip | external_libs/mbedTLS/library/base64.c:77-224 | encoding and then decoding with room for both gives the source back byte for byte |

## Left out

- Mpi.Grow: allocation failure and the limit on the number of limbs; limbs live in a list that grows, so two numbers never share limb memory and freeing is not modelled, while passing one object as several operands is.
- Mpi.MulHlp: the unrolling of the multiply loop into blocks of 16, 8 and 1 steps and the assembly variants of the multiply step; the half-word C form of the step is modelled.
- InvMod.InvModMpi: does not cover N = 1, because the source does not terminate there (InvMod.InvModAtOne); a zero A without limbs, on which the source would read a missing limb for N = 1, is not part of that statement.
- Mont.MontMul: T must either fail the source's size check (fewer than n + 1 limbs) or have the 2n + 2 limbs that its callers give it; between the two the check passes although the last row writes limb 2n + 1 behind the end of T, which no list of limbs can express.
- Div.DivMpi: Q must differ from R, A and B, because the source writes Q before it is done reading the others' signs and limbs.
- ExpMod.ExpModMpi: X must differ from N and E, the kept R^2 from all operands, and N and A must have limbs: the source reads N's lowest limb, and it copies a limbless A over an entry of its table and then reads that entry's lowest limb in a product.
- Random filling, Miller-Rabin and prime generation, reading and writing of numbers as text, bytes and files, constant-time swaps: not modelled.
- Jsmn.Parser.Parse: the strict mode and the parent links, which are compile-time options, are not modelled; a character is compared by its code, so bytes above 127 are simply outside the printable range.
- Topic.IsTopicMatched: null pointers are not modelled, and filters are well formed, as the comment above the function demands; a filter is the text before its terminator; the standard's separate rule on topics that begin with '$' (section 4.7.2) is not in the source and not in the comparison.
- Publish.SerializePublish: null pointers; what happens behind the end of the buffer, so a packet whose wrapped length passes the check although it does not fit is a precondition (Publish.CheckedFits says which ones those are); the transmit buffer is below 2^28 bytes, as configured.
- Publish.DeserializePublish: the buffer holds the whole packet, as the reader of packets guarantees; reads that the source does not check are a precondition.
- Acks.DeserializeSuback: what the deserializers of answers look at without checking lies in the buffer as a precondition.
- The other serializers and the loop that sends a buffer piece by piece: not modelled; a packet counts as sent or not.
- Client.Client.RunHandler: handlers that disconnect, switch reconnecting on or off or start shadow actions, and the disconnect handler of the application, are not modelled; there is one thread, so mutexes always succeed and a compare-and-set of the state never loses.
- Client.Client.CycleRead: which bytes a read writes is an arbitrary prefix of the buffer, complete packet or not; reads and what the deserializer looks at stay inside the buffer as a precondition (ClientSpec.CompletePacketIsLegal), since the source's own check on the length leaves out the bytes before it.
- Client.Client.Resubscribe: the bytes of the requests are not modelled; for a slot that is free at its turn the source reads a missing topic.
- Client.Client.Connect: connection parameters and packet contents are not modelled; the code of everything before the packet is sent is a parameter.
- Shadow.Shadow.InternalAction: steps are atomic, so no message is handled while a subscription is awaited; thing names fit their buffer; that new topics find a free record is a precondition, met while fewer than ten kinds of request wait or ever were sticky, since with none the source reads in front of its table.
- Shadow.Shadow.AckStatus: the token arrives parsed, the callback starts no shadow action, and the version number is not modelled.
- Ccm.AuthCrypt: failures of the block cipher, the key schedule and constant-time behaviour; disjoint bits joined by "or" are added.
- Base64.Encode: the tables are given by ranges of characters instead of arrays; a missing target is a target of length 0.
- Base64.Decode: texts so long that six times their length overflows a size are not treated separately.
- AES, ARC4, ASN.1, TLS sockets, timers, mutexes, JSON printing, database and shell glue: no logic of this kind, or concrete tables.
