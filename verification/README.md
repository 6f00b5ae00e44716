# Verified model of an MQTT device SDK

A Dafny model of the parts of this C repository whose correctness is hardest to see: the multi-precision arithmetic, cipher modes
and base64 of the vendored mbed TLS, the jsmn tokenizer, the MQTT 3.1.1 client and the device-shadow bookkeeping. Every loop of the
modelled code is a loop here, and every object it updates in place is a class or an array.

Run `dafny verify dfyconfig.toml`.

| file | subject |
|---|---|
| `Common` | bytes and optional values |
| `Arithmetic`, `Limbs` | powers, divisibility, congruence; the number a limb string denotes |
| `Bignum` | `mbedtls_mpi`: grow, copy, compare, shift, add, subtract, multiply |
| `Division`, `HalfLimbDivision`, `Montgomery`, `Exponentiation`, `Inversion` | Knuth division, Montgomery products, sliding-window powers, binary gcd and inverse |
| `Jsmn`, `JsmnValues`, `JsmnRejects` | the resumable JSON tokenizer; the texts it accepts and those it does not |
| `TopicFilter` | the topic matcher against the level-by-level definition |
| `Codec`, `Packets`, `ConnectPacket` | the wire format, its writers and readers |
| `Client`, `ClientProgress`, `ClientMachine` | the client state machine with re-entrant callbacks, keep-alive and reconnect back-off; what it is sure to do |
| `Bytes`, `Blowfish`, `BlowfishModes`, `BlowfishStreams`, `Ccm`, `CcmFormat` | block cipher, modes, authenticated encryption and what it authenticates |
| `Base64`, `Base64Text` | encoder and two-pass decoder; the texts it accepts |
| `Shadow`, `ShadowReplies`, `ShadowTopics`, `ShadowRecords` | reference-counted acknowledgement subscriptions, replies to the application |

## How the source is rendered

- The limb width, the largest number of limbs and the exponentiation window are unspecified constants within their legal ranges, and
  so are the bounds of the reconnect interval; what is proved holds for all of them. `MULADDC` is multiply, add, carry.
- Limbs are a sequence in a field of the `Mpi` object, so output and operand may be the same object, as callers of the C functions
  rely on. An allocation succeeds or reports failure.
- Transport, timers and application callbacks of the client are inputs: finite scripts of how each foreign call turns out. A timer
  expires after the last entry of its script. A callback may publish, subscribe, unsubscribe, disconnect and yield, to any depth.
- CCM takes an arbitrary function from blocks to blocks. Blowfish takes arbitrary subkeys and boxes.
- Integers are unbounded except where the width matters: limbs, the 32-bit base64 accumulator and reconnect interval, the 8-bit
  reference counts, cipher words and bytes.

## What the proofs showed about the code

- `mbedtls_mpi_div_mpi` built without a double-width type can return a wrong quotient: normalisation leaves the divisor's top bit
  clear, but the half-limb step needs it set. `HalfLimbDivision.EstimateExactly` and `DivStepHalf` say exactly when a digit is right,
  `WrongDivision` is a division that goes wrong for every limb width. With a double-width type the division is correct.
- `mbedtls_mpi_gcd(A, 0)` is 0, not A (`Inversion.Gcd` has the exact condition).
- `mbedtls_mpi_inv_mod` does not terminate for N = 1: the number to be made odd is then zero and is halved for ever
  (`Inversion.FirstLoopEnds`; the outcome `Diverges` of `InvMod`).
- `mbedtls_mpi_exp_mod` with a negative base answers N - (|A|^E mod N) for even exponents too, and N itself when N divides A^E
  (`Exponentiation.NegativeBase`).
- `mbedtls_mpi_add_abs` and `mbedtls_mpi_add_mpi` with all three arguments one object double each limb without carry: right exactly
  when no limb has its top bit set (`Bignum.DoubledExactly`, `SelfSumExample`).
- The predicted packet length is one byte too long for exactly three remaining lengths, and one byte too short from 2^28 on, where a
  buffer of the predicted size passes the check and is overrun (`Codec.PredictionExact`, `PastEndExactly`).
- The packet reader accepts lengths up to the size of the receive buffer less one, without counting header byte and length field; the
  last of them put the packet beyond the buffer (`Packets.BeyondExactly`, the outcome `Beyond`).
- A PUBLISH whose qos is above 0 and whose body ends before the packet identifier is reported as a success with a payload length that
  wraps below zero: the outcome `Overrun` (`Packets.ReadBodyExact`).
- `mbedtls_base64_decode` reports success without setting the output length for blank input (`Base64.DecodeBuffer`).
- A yield can only end outside its four end states when a read of the transport returns NETWORK_DISCONNECTED_ERROR or
  NETWORK_ATTEMPTING_RECONNECT, codes that the client uses for itself (`Client.YieldedEnds`, `Client.StuckExactly`).
- A shadow rejection for a thing whose name contains "accepted" is reported to the application as an acceptance
  (`ShadowReplies.AcceptedTopics`, `RejectionAccepted`).
- CCM takes 0xFF00 bytes of additional data with a two-byte length, where NIST SP 800-38C, appendix A.2.2, asks for six bytes
  (`CcmFormat.StandardReadsBack`, `OneTooMany`).
- When the shadow subscription table is full, a request still reports success and is tracked, although nothing was subscribed
  (`Shadow.TrackKeepsInv`, `Shadow.NoRoomExample`). The code then also reads the slot before the table; what it unsubscribes as a
  consequence is an input of the model.

## Model

| member | source | states |
|---|---|---|
| `Bignum.Mpi.Grow` | external_libs/mbedTLS/library/bignum.c:102-126 | on success the number has at least n limbs, its value is unchanged and the new limbs are zero; on failure nothing changed |
| `Bignum.Mpi.Copy` | external_libs/mbedTLS/library/bignum.c:168-197 | the target denotes the source value; it has exactly as many limbs as it had or as the source significantly needs |
| `Bignum.Mpi.Lset` | external_libs/mbedTLS/library/bignum.c:278-291 | the number denotes the given machine integer, with its sign, in the lowest limb |
| `Bignum.Mpi.Lsb` | external_libs/mbedTLS/library/bignum.c:335-345 | for a nonzero magnitude 2^r divides it and 2^(r+1) does not; 0 for zero |
| `Bignum.Mpi.Bitlen` | external_libs/mbedTLS/library/bignum.c:350-366 | 2^(r-1) <= magnitude < 2^r |
| `Bignum.Mpi.ShiftL` | external_libs/mbedTLS/library/bignum.c:679-724 | the magnitude is multiplied by exactly 2^count; no bit leaves the allocated limbs |
| `Bignum.Mpi.ShiftR` | external_libs/mbedTLS/library/bignum.c:729-767 | the magnitude is divided by exactly 2^count, rounding down |
| `Bignum.Mpi.CmpAbs` | external_libs/mbedTLS/library/bignum.c:772-797 | three-way comparison of magnitudes, whatever leading zero limbs there are |
| `Bignum.Mpi.CmpMpi` | external_libs/mbedTLS/library/bignum.c:802-830 | three-way comparison of the integers, negative zero included |
| `Bignum.Mpi.CmpInt` | external_libs/mbedTLS/library/bignum.c:835-846 | three-way comparison with a machine integer |
| `Bignum.Mpi.AddAbs` | external_libs/mbedTLS/library/bignum.c:851-898 | the magnitude is the sum of magnitudes, the carry chain growing the number; with all three arguments one object every limb is doubled without carry, which is the sum exactly when no limb has its top bit set |
| `Bignum.AddOnto` | external_libs/mbedTLS/library/bignum.c:876-882 | the first loop adds limb strings, with a carry out of at most one |
| `Bignum.AddOntoItself` | external_libs/mbedTLS/library/bignum.c:876-882 | the same loop with addend and sum in one place doubles every limb modulo BASE and never sees a carry |
| `Bignum.DoubledExactly` | external_libs/mbedTLS/library/bignum.c:876-882 | doubling limb by limb doubles the number exactly when no limb has its top bit set |
| `Bignum.SelfSumExample` | external_libs/mbedTLS/library/bignum.c:876-882 | BASE - 1 added to itself in place gives BASE - 2 |
| `Bignum.Mpi.CarryUp` | external_libs/mbedTLS/library/bignum.c:884-893 | the carry loop adds the carry at its weight, growing the number where needed |
| `Bignum.SubHlp` | external_libs/mbedTLS/library/bignum.c:903-919 | limb subtraction is integer subtraction and the borrow stops within the minuend |
| `Bignum.Mpi.SubAbs` | external_libs/mbedTLS/library/bignum.c:924-962 | difference of magnitudes, refused exactly when it would be negative and then leaving the output alone |
| `Bignum.Mpi.AddMpi` | external_libs/mbedTLS/library/bignum.c:967-993 | the integer sum for all sign combinations and all aliasing but one; with all three arguments one object, exactly when no limb has its top bit set |
| `Bignum.Mpi.SubMpi` | external_libs/mbedTLS/library/bignum.c:998-1024 | the integer difference for all sign combinations, with any aliasing |
| `Bignum.MulHlp` | external_libs/mbedTLS/library/bignum.c:1069-1128 | adding b times a limb string at an offset adds b * value * BASE^off; limbs below the offset keep their contents |
| `Bignum.Mpi.MulMpi` | external_libs/mbedTLS/library/bignum.c:1133-1165 | schoolbook multiplication gives the integer product, the output possibly being an operand |
| `Bignum.Mpi.MulInt` | external_libs/mbedTLS/library/bignum.c:1170-1181 | the integer product with one limb |
| `Division.Normalise` | external_libs/mbedTLS/library/bignum.c:1213-1221 | both operands are multiplied by the same power of two below BASE; the divisor then is one bit short of a whole number of limbs |
| `Division.EstimateDigit` | external_libs/mbedTLS/library/bignum.c:1236-1249 | the largest limb if the top limb of X reaches that of Y, else the exact quotient of two limbs by one, which the clamp never changes |
| `HalfLimbDivision.LowerDigit` | external_libs/mbedTLS/library/bignum.c:1266-1273 | correcting an estimate with wrapping sums gives exact quotient and remainder |
| `HalfLimbDivision.HalfDigit` | external_libs/mbedTLS/library/bignum.c:1257-1273 | without a double-width type: the half digit is the quotient of its dividend exactly when the product of the guess fits a limb, else that of a dividend one limb larger |
| `HalfLimbDivision.TwoDigits` | external_libs/mbedTLS/library/bignum.c:1250-1289 | the branch computes the joined half digits, with what the shift and the or lose |
| `HalfLimbDivision.OrShifted` | external_libs/mbedTLS/library/bignum.c:1289 | the or of a shifted half digit with one that reaches a bit too far |
| `HalfLimbDivision.EstimateExactly` | external_libs/mbedTLS/library/bignum.c:1250-1289 | for every divisor of at least BASE/4 the digit is the quotient of two limbs by one exactly when neither product wraps; it is low when the first wraps or the second does after an odd half digit, else not low |
| `HalfLimbDivision.NormalisedTop` | external_libs/mbedTLS/library/bignum.c:1214-1221 | every normalised divisor has its second highest bit set and its highest clear |
| `HalfLimbDivision.DigitNear` | external_libs/mbedTLS/library/bignum.c:1234-1289 | the true digit is at most four below the quotient of the top limbs |
| `HalfLimbDivision.DivStepHalf` | external_libs/mbedTLS/library/bignum.c:1234-1320 | in that build digit and remainder of an iteration are right exactly when the first estimate is not low |
| `HalfLimbDivision.WrapExample` | external_libs/mbedTLS/library/bignum.c:1214-1221 | for every limb width a normalised divisor and a remainder whose product wraps |
| `HalfLimbDivision.WrongQuotient` | external_libs/mbedTLS/library/bignum.c:1250-1289 | (y - 1) * BASE divided by that y: the estimate is at least five too low |
| `HalfLimbDivision.WrongDivision` | external_libs/mbedTLS/library/bignum.c:1234-1320 | the iteration on these operands reports neither the quotient nor the remainder |
| `Division.DigitWithinOne` | external_libs/mbedTLS/library/bignum.c:1236-1308 | the refined quotient digit is never below the true digit and at most one above it |
| `Division.OneAddBackSuffices` | external_libs/mbedTLS/library/bignum.c:1294-1320 | a digit passing the test on the top limbs overshoots by less than one divisor, so one add-back suffices |
| `Division.RefineDigit` | external_libs/mbedTLS/library/bignum.c:1294-1308 | the do-while loop lowers the estimate to the largest digit at most the estimate that passes the two-by-three-limb test |
| `Division.DivStep` | external_libs/mbedTLS/library/bignum.c:1236-1320 | one iteration yields the exact quotient digit and reduces X to its exact remainder by the shifted divisor |
| `Division.DivWithEstimate` | external_libs/mbedTLS/library/bignum.c:1293-1320 | after any first estimate: one that reaches the true digit is brought down to it, one below stays, leaving more than a divisor |
| `Division.TopDigit` | external_libs/mbedTLS/library/bignum.c:1225-1232 | repeated subtraction leaves the top quotient digit in Z and the remainder in X |
| `Division.DivDigits` | external_libs/mbedTLS/library/bignum.c:1234-1321 | the main loop turns the invariant x = Z*y + X into quotient and remainder |
| `Division.DivLimbs` | external_libs/mbedTLS/library/bignum.c:1223-1321 | division of normalised magnitudes is exact |
| `Division.TruncatedDivision` | external_libs/mbedTLS/library/bignum.c:1186-1345 | a = q*b + r with |r| < |b| and r zero or of the sign of a holds for exactly one pair, the truncated quotient and remainder |
| `Division.DivMpi` | external_libs/mbedTLS/library/bignum.c:1186-1345 | quotient and remainder of truncating signed division; division by zero reported exactly for B = 0; Q or R may be absent, R may alias an operand |
| `Division.StoreRemainder` | external_libs/mbedTLS/library/bignum.c:1329-1337 | the normalisation is undone and the remainder takes the sign of A, zero being non-negative |
| `Division.ModMpi` | external_libs/mbedTLS/library/bignum.c:1366-1384 | the least non-negative residue; errors exactly for negative and for zero moduli |
| `Montgomery.SeedInverts` | external_libs/mbedTLS/library/bignum.c:1448-1452 | the seed expression inverts every odd number modulo 16 |
| `Montgomery.NewtonStep` | external_libs/mbedTLS/library/bignum.c:1454-1455 | one Newton step doubles the number of bits to which the inverse is right |
| `Montgomery.MontgInit` | external_libs/mbedTLS/library/bignum.c:1446-1458 | mm * N = -1 modulo BASE for every limb width |
| `Montgomery.MontRow` | external_libs/mbedTLS/library/bignum.c:1475-1487 | one iteration divides the window by BASE exactly and keeps it below 2*N, within n+1 limbs |
| `Montgomery.MontRows` | external_libs/mbedTLS/library/bignum.c:1469-1487 | after all iterations BASE^n times the window is A*B modulo N |
| `Montgomery.MontMul` | external_libs/mbedTLS/library/bignum.c:1463-1496 | A becomes a residue below N with BASE^n * A = A*B modulo N |
| `Montgomery.MontRed` | external_libs/mbedTLS/library/bignum.c:1501-1510 | A becomes a residue below N with BASE^n * A = A modulo N |
| `Montgomery.MontUnique` | external_libs/mbedTLS/library/bignum.c:1463-1496 | for odd N that residue is the only one |
| `Montgomery.MontProduct` | external_libs/mbedTLS/library/bignum.c:1463-1496 | the residue of two numbers in Montgomery form is their product in Montgomery form |
| `Montgomery.MontOut` | external_libs/mbedTLS/library/bignum.c:1501-1510 | reducing a number in Montgomery form gives its plain residue |
| `Exponentiation.BuildTable` | external_libs/mbedTLS/library/bignum.c:1594-1617 | every table slot in use holds its own power of the base, and all slots with the top window bit are filled |
| `Exponentiation.WindowLoop` | external_libs/mbedTLS/library/bignum.c:1619-1681 | X is the base to the consumed exponent prefix without the pending window bits, which are the next bits of the exponent |
| `Exponentiation.RemainingBits` | external_libs/mbedTLS/library/bignum.c:1683-1694 | squaring and multiplying through the leftover bits completes the exponent |
| `Exponentiation.ObtainRR` | external_libs/mbedTLS/library/bignum.c:1563-1576 | BASE^(2n) mod N, from the cache or computed and then cached |
| `Exponentiation.ExpModOdd` | external_libs/mbedTLS/library/bignum.c:1531-1718 | the result for every window size and exponent length, for either sign of the base |
| `Exponentiation.ExpMod` | external_libs/mbedTLS/library/bignum.c:1515-1718 | X = A^E mod N for A >= 0; bad input exactly for N negative or even or E negative; X may alias A |
| `Exponentiation.NegativeBase` | external_libs/mbedTLS/library/bignum.c:1701-1706 | for a negative base the code answers N - (|A|^E mod N), which is the least residue of A^E exactly when E is odd and N does not divide A^E |
| `Inversion.GcdStep` | external_libs/mbedTLS/library/bignum.c:1745-1760 | one round shrinks the pair and keeps its common divisors |
| `Inversion.GcdLoop` | external_libs/mbedTLS/library/bignum.c:1743-1760 | the loop ends with a number having exactly the common divisors of the operands |
| `Inversion.Gcd` | external_libs/mbedTLS/library/bignum.c:1723-1770 | the result is the greatest common divisor exactly when B is nonzero or A is zero; for B = 0 it is 0 |
| `Inversion.HalveBezout` | external_libs/mbedTLS/library/bignum.c:1831-1857 | halving, after adding b and subtracting a when a coefficient is odd, keeps u1*a + u2*b = u |
| `Inversion.HalveWhileEven` | external_libs/mbedTLS/library/bignum.c:1831-1843 | TU becomes odd, keeping its Bezout equation and the common divisors with TV |
| `Inversion.InvStep` | external_libs/mbedTLS/library/bignum.c:1829-1872 | one round keeps both Bezout equations and the common divisors and decreases TU + TV |
| `Inversion.InvLoop` | external_libs/mbedTLS/library/bignum.c:1829-1872 | the loop terminates with TV the greatest common divisor and V1, V2 its coefficients |
| `Inversion.InvMod` | external_libs/mbedTLS/library/bignum.c:1799-1889 | either A*X = 1 modulo N with 0 <= X < N, or "not acceptable" exactly when gcd(A, N) != 1; bad input exactly for N <= 0; for N = 1 the call does not return |
| `Inversion.ResidueZero` | external_libs/mbedTLS/library/bignum.c:1811-1820 | of coprime operands A is a multiple of N exactly when N is one |
| `Inversion.FirstLoopEnds` | external_libs/mbedTLS/library/bignum.c:1831-1843 | the first inner loop ends exactly when N is not one |
| `Jsmn.Parser.ParsePrimitive` | external_libs/jsmn/jsmn.c:65-109 | the primitive scanned by the specification becomes the next token; every failure leaves position and tokens |
| `Jsmn.Parser.ParseString` | external_libs/jsmn/jsmn.c:114-176 | the string scanned by the specification becomes the next token; every failure leaves position and tokens |
| `Jsmn.Parser.StepArray` | external_libs/jsmn/jsmn.c:192-317 | one pass of the loop on the token array is one step of the specification or leaves everything on error |
| `Jsmn.Parser.Parse` | external_libs/jsmn/jsmn.c:181-330 | the loop with its in-place stack in the token array computes the run of the specification; with NULL it computes the count |
| `Jsmn.Resumption` | external_libs/jsmn/jsmn.c:36-49 | after NOMEM, going on with a larger array gives the result and tokens of one parse with the larger array |
| `Jsmn.LargerArray` | external_libs/jsmn/jsmn.c:36-49 | a parse that does not run out of tokens is the same over every larger array |
| `Jsmn.CountingPass` | external_libs/jsmn/jsmn.c:181-330 | whenever a parse succeeds, the pass with a NULL array returns the same count |
| `Jsmn.StepKeepsStructure` | external_libs/jsmn/jsmn.c:192-317 | every step keeps tokens placed and spans nested |
| `Jsmn.RunKeepsStructure` | external_libs/jsmn/jsmn.c:181-330 | so does every run, failed ones included |
| `Jsmn.Soundness` | external_libs/jsmn/jsmn.c:181-330 | after success the result is toknext, spans lie in the input, starts strictly increase, two spans are disjoint or one lies between the brackets of the other, and containers run from bracket to closing bracket of their kind |
| `Jsmn.BracketsOwned` | external_libs/jsmn/jsmn.c:192-257 | every bracket that a run reads opens or closes one of its tokens |
| `Jsmn.BracketsMatch` | external_libs/jsmn/jsmn.c:181-330 | between the brackets of a container every bracket read belongs to a container that lies there with both of its own |
| `Jsmn.RunEnds` | external_libs/jsmn/jsmn.c:320-329 | success leaves no token open |
| `Jsmn.SizesCountAdopted` | external_libs/jsmn/jsmn.c:192-317 | the sizes add up to the number of tokens allocated under a superior token |
| `JsmnValues.Completeness` | external_libs/jsmn/jsmn.c:181-330 | every JSON text, with white space between its symbols, is accepted with exactly the tokens of its value: spans, kinds, number of entries, 1 for a key, 0 for a scalar; with too few tokens the result is NOMEM; counting gives their number |
| `JsmnValues.ParsesValue` | external_libs/jsmn/jsmn.c:192-317 | from any state a value adds exactly its tokens, counts for the superior token and leaves the enclosing container superior |
| `JsmnValues.ParsesTail` | external_libs/jsmn/jsmn.c:207-295 | entries and closing bracket of a container close it with their number added and leave the next open token superior |
| `JsmnValues.ParsesKey` | external_libs/jsmn/jsmn.c:258-269 | a key counts for its container and becomes the superior token at its colon |
| `JsmnValues.ParsesComma` | external_libs/jsmn/jsmn.c:270-287 | a comma makes the innermost open container superior again |
| `JsmnValues.WordsOfJson` | external_libs/jsmn/jsmn.c:69-89 | numbers and literal names may stand without quotes |
| `JsmnRejects.StringExactly` | external_libs/jsmn/jsmn.c:114-176 | a string ends at the quote behind plain characters and valid escapes; it is invalid exactly at an escape that is none; else the text breaks off |
| `JsmnRejects.PrimitiveExactly` | external_libs/jsmn/jsmn.c:65-109 | a primitive reaches to the first delimiter or the end of the text and is invalid exactly when a character that is not printable comes first |
| `JsmnRejects.Truncated` | external_libs/jsmn/jsmn.c:320-329 | a JSON container that breaks off anywhere before its closing bracket is reported as JSMN_ERROR_PART |
| `TopicFilter.SkipLevel` | src/aws_iot_mqtt_client_common_internal.c:442-446 | the inner loop of "+" stops on the last character of the level |
| `TopicFilter.IsTopicMatched` | src/aws_iot_mqtt_client_common_internal.c:423-457 | the cursor loop answers what the specification walk answers, for all strings |
| `TopicFilter.WalkRefinesLevels` | src/aws_iot_mqtt_client_common_internal.c:420-457 | for well-formed filters and names without empty levels the walk is the level-by-level match of section 4.7 of MQTT 3.1.1 |
| `TopicFilter.DeliveryIsMatch` | src/aws_iot_mqtt_client_common_internal.c:480-486 | comparing the strings outright first does not change which subscriptions are delivered to |
| `Codec.WriteLength` | src/aws_iot_mqtt_client_common_internal.c:56-72 | the do-while loop writes the variable-length encoding at the cursor and nothing else |
| `Codec.DecodeRemainingLengthLoop` | src/aws_iot_mqtt_client_common_internal.c:80-104 | the decoding loop computes the specification decoding |
| `Codec.EncodedSize` | src/aws_iot_mqtt_client_common_internal.c:56-72 | the number of length bytes for every value |
| `Codec.EncodedDigit` | src/aws_iot_mqtt_client_common_internal.c:56-72 | byte i holds the digit of weight 128^i, with the top bit exactly when another byte follows |
| `Codec.LengthRoundTrip` | src/aws_iot_mqtt_client_common_internal.c:56-104 | decoding the encoding gives the value back exactly below 2^28 |
| `Codec.PredictionExact` | src/aws_iot_mqtt_client_common_internal.c:106-119 | below 2^28 the predicted packet length is the emitted one, or one more exactly for remaining lengths 127, 16383 and 2097151; from 2^28 on it is one too short |
| `Codec.PastEndExactly` | src/aws_iot_mqtt_client_common_internal.c:106-119 | a packet passes the size check and does not fit exactly for 2^28 bytes or more and a buffer of the predicted size |
| `Codec.HeaderFields` | src/aws_iot_mqtt_client_common_internal.c:187-265 | every field is read back from the header byte |
| `Codec.WriteUtf8String` | src/aws_iot_mqtt_client_common_internal.c:172-179 | length and contents are spliced into the buffer and nothing else |
| `Packets.FrameReadsBack` | src/aws_iot_mqtt_client_common_internal.c:106-119 | in every framed packet below 2^28 the length field decodes to exactly the number of bytes that follow |
| `Packets.SerializePublish` | src/aws_iot_mqtt_client_publish.c:87-133 | every outcome: NULL payload, buffer too short, one byte past the end, or the PUBLISH spliced in and nothing else changed |
| `Packets.DeserializePublish` | src/aws_iot_mqtt_client_publish.c:312-372 | the cursor walk computes the specification reader on every buffer |
| `Packets.BeyondExactly` | src/aws_iot_mqtt_client_common_internal.c:348-418 | of the lengths the packet reader lets through, exactly the last few put the packet beyond the receive buffer |
| `Packets.DeserializeBody` | src/aws_iot_mqtt_client_publish.c:52-69 | reading the topic with its length, then identifier and payload, within the packet |
| `Packets.PublishRoundTrip` | src/aws_iot_mqtt_client_publish.c:312-372 | flags, topic, identifier and payload are read back from the serialized bytes, whatever follows in the buffer |
| `Packets.ReadBodyExact` | src/aws_iot_mqtt_client_publish.c:358-371 | an accepted message lays out again as the body it was read from; rejected bodies have no topic that fits; otherwise the identifier overruns the packet |
| `Packets.SerializeSubscribe` | src/aws_iot_mqtt_client_subscribe.c:58-103 | every outcome of the size check for any number of filters; on success the SUBSCRIBE is spliced in and nothing else changed |
| `Packets.SerializeUnsubscribe` | src/aws_iot_mqtt_client_unsubscribe.c:56-93 | the same for UNSUBSCRIBE |
| `Packets.FiltersRoundTrip` | src/aws_iot_mqtt_client_subscribe.c:58-103 | identifier and all filters, in order, are read back from the body |
| `Packets.SubscribeRoundTrip` | src/aws_iot_mqtt_client_subscribe.c:58-103 | to a reader of whole packets the serialized bytes are the SUBSCRIBE with that identifier and those filters, exactly unless flagged as a duplicate, and never an UNSUBSCRIBE |
| `Packets.UnsubscribeRoundTrip` | src/aws_iot_mqtt_client_unsubscribe.c:56-93 | the same for UNSUBSCRIBE |
| `ConnectPacket.ConnectLength` | src/aws_iot_mqtt_client_connect.c:114-141 | the predicted length is the length of the body, always below 2^28 |
| `ConnectPacket.SerializeConnect` | src/aws_iot_mqtt_client_connect.c:151-241 | the error cases in order, else the CONNECT is spliced in; every write fits |
| `ConnectPacket.ConnectRoundTrip` | src/aws_iot_mqtt_client_connect.c:151-241 | every connect parameter is read back from the emitted body |
| `ConnectPacket.ConnectPacketRoundTrip` | src/aws_iot_mqtt_client_connect.c:151-241 | and from the whole packet: first byte 0x10, length, the name MQTT, version, flags, strings |
| `Client.CycledKeeps` | src/aws_iot_mqtt_client_common_internal.c:548-612 | whatever one packet leads to, callbacks to any depth included, the state is the one before or, exactly after a successful disconnect, DISCONNECTED_MANUALLY |
| `Client.AwaitedKeeps` | src/aws_iot_mqtt_client_common_internal.c:615-640 | waiting for a packet likewise; success means that it arrived before the timer expired |
| `Client.RequestedKeeps` | src/aws_iot_mqtt_client_publish.c:262-295 | publish, and with other states and packets subscribe and unsubscribe, end in the entry state or DISCONNECTED_MANUALLY; success implies permission, sending and acknowledgement |
| `Client.ResubscribedKeeps` | src/aws_iot_mqtt_client_subscribe.c:400-432 | resubscribing likewise; success means that every filter was acknowledged |
| `Client.ConnectedEnds` | src/aws_iot_mqtt_client_connect.c:458-500 | connect ends idle on success and in DISCONNECTED_ERROR on failure, unless a callback disconnected while the CONNACK was awaited |
| `Client.ReattemptedEnds` | src/aws_iot_mqtt_client_connect.c:607-635 | a reconnect try ends idle, pending or manually disconnected; idle only after a CONNACK |
| `Client.RetriedKeeps` | src/aws_iot_mqtt_client_yield.c:74-109 | a try is made exactly when the delay has passed; a failed one is recorded with its delay and doubles the interval |
| `Client.LossNoticed` | src/aws_iot_mqtt_client_yield.c:111-159 | the connection is declared lost exactly for a broken transport, an overdue unanswered ping or a ping that cannot be sent |
| `Client.IteratedKeeps` | src/aws_iot_mqtt_client_yield.c:192-237 | one pass of the yield loop keeps the back-off and can only lead to the listed states |
| `Client.LoopedKeeps` | src/aws_iot_mqtt_client_yield.c:180-240 | so does the whole loop, for any number of passes |
| `Client.YieldedEnds` | src/aws_iot_mqtt_client_yield.c:261-306 | a yield that passes its checks ends idle, pending, in error or manually disconnected, unless a read returned one of the two codes the client uses itself; once the interval has passed MAX it changes nothing |
| `Client.StuckExactly` | src/aws_iot_mqtt_client_yield.c:261-306 | a yield of any length is left in progress exactly when its last step finds it so and reads one of the two codes |
| `Client.RunSettled` | src/aws_iot_mqtt_client_yield.c:261-306 | over every run the client is initialized or settled between calls |
| `Client.RunBacksOff` | src/aws_iot_mqtt_client_yield.c:74-109 | over every run the failed tries since a loss were made after MIN, 2*MIN, 4*MIN, ... at most MAX, within their bound, which is reached exactly on giving up |
| `Client.GivenUp` | src/aws_iot_mqtt_client_yield.c:193-203 | having given up, no number of yields tries again |
| `Client.TriesBounded` | src/aws_iot_mqtt_client_yield.c:102-108 | at most floor(log2(MAX/MIN)) + 1 tries fail, and the interval exceeds MAX exactly when that many have |
| `ClientProgress.CycledCode` | src/aws_iot_mqtt_client_common_internal.c:548-612 | the code of a read, callbacks to any depth included: the state is found changed exactly when a callback disconnected |
| `ClientProgress.DisconnectSilences` | src/aws_iot_mqtt_client_common_internal.c:459-497 | after a callback has disconnected, the remaining calls of the delivery change nothing |
| `ClientProgress.AwaitedExactly` | src/aws_iot_mqtt_client_common_internal.c:615-640 | waiting succeeds exactly when the packet arrives with no lost connection reported before it; otherwise exactly a reported loss gives NETWORK_DISCONNECTED_ERROR and everything else the time-out |
| `ClientProgress.RequestedExactly` | src/aws_iot_mqtt_client_publish.c:262-295 | a request succeeds exactly when allowed, made up, sent, acknowledged in time and not disconnected meanwhile |
| `ClientProgress.ConnectedExactly` | src/aws_iot_mqtt_client_connect.c:458-500 | a connect succeeds exactly when the transport comes up and CONNECT goes through |
| `ClientProgress.ReattemptedExactly` | src/aws_iot_mqtt_client_connect.c:607-635 | NETWORK_RECONNECTED exactly when transport, CONNECT and every resubscription go through and no callback disconnects |
| `ClientProgress.RetriedExactly` | src/aws_iot_mqtt_client_yield.c:74-109 | the client yields again, with the back-off unchanged, exactly when the delay has passed, the physical layer is up and the attempt restores the connection undisturbed |
| `ClientProgress.Reconnects` | src/aws_iot_mqtt_client_yield.c:74-109 | the same on the inputs alone, for callbacks that do not disconnect |
| `ClientProgress.LossExactly` | src/aws_iot_mqtt_client_yield.c:111-159 | which reads and timers make one pass declare the connection lost, and that nothing else does |
| `ClientProgress.KeepAliveExactly` | src/aws_iot_mqtt_client_yield.c:180-240 | over any number of passes with good reads, a loss is declared exactly when two ping timers expire with no ping response read after the first up to and including the pass of the second; otherwise only the ping flag can change |
| `ClientProgress.LossDeclared` | src/aws_iot_mqtt_client_yield.c:216-236 | at the first such pass there is exactly one loss, pending reconnection or, without automatic reconnection, in error |
| `ClientMachine.Machine.constructor` | src/aws_iot_mqtt_client.c:155-224 | a fresh client is initialized and satisfies the invariant |
| `ClientMachine.Machine.SetState` | src/aws_iot_mqtt_client.c:94-127 | compare-and-set |
| `ClientMachine.Machine.CycleRead` | src/aws_iot_mqtt_client_common_internal.c:548-612 | the code says exactly whether a callback disconnected, the state follows, and a ping response, and among plain reads only it, ends the outstanding ping |
| `ClientMachine.Machine.Deliver` | src/aws_iot_mqtt_client_common_internal.c:459-497 | the callbacks run one after another in WAIT_FOR_CB_RETURN and the entry state is restored if it still can be |
| `ClientMachine.Machine.WaitForRead` | src/aws_iot_mqtt_client_common_internal.c:615-640 | the loop computes the specified wait |
| `ClientMachine.Machine.Request` | src/aws_iot_mqtt_client_publish.c:262-295 | entry state or DISCONNECTED_MANUALLY after a successful disconnect; success implies permission, sending and acknowledgement; refused requests change nothing; the invariant between calls is kept |
| `ClientMachine.Machine.Resubscribe` | src/aws_iot_mqtt_client_subscribe.c:400-432 | the specified resubscription, loop included |
| `ClientMachine.Machine.Connect` | src/aws_iot_mqtt_client_connect.c:458-500 | idle exactly on success without a disconnect in between, manually disconnected exactly after one, else DISCONNECTED_ERROR; success implies a CONNACK; the invariant between calls is kept |
| `ClientMachine.Machine.Disconnect` | src/aws_iot_mqtt_client_connect.c:561-592 | succeeds exactly when connected and the network closes, and otherwise changes nothing; the invariant between calls is kept |
| `ClientMachine.Machine.AttemptReconnect` | src/aws_iot_mqtt_client_connect.c:607-635 | idle only after a CONNACK, pending only with NETWORK_ATTEMPTING_RECONNECT, or manually disconnected; refused when connected |
| `ClientMachine.Machine.HandleDisconnect` | src/aws_iot_mqtt_client_yield.c:47-71 | always DISCONNECTED_ERROR and NETWORK_DISCONNECTED_ERROR, whatever the disconnect itself returned |
| `ClientMachine.Machine.KeepAlive` | src/aws_iot_mqtt_client_yield.c:111-159 | the connection is declared lost exactly for an overdue unanswered ping or one that cannot be sent; a ping is outstanding exactly after it was due |
| `ClientMachine.Machine.HandleReconnect` | src/aws_iot_mqtt_client_yield.c:74-109 | nothing before the delay has passed; a failed try records its delay, doubles the interval and restarts the timer or reports the time-out; success only after a CONNACK |
| `ClientMachine.Machine.NoticeLoss` | src/aws_iot_mqtt_client_yield.c:216-236 | a loss is counted and, with automatic reconnection, starts the back-off at MIN with no failed tries; anything else leaves the state |
| `ClientMachine.Machine.InternalYield` | src/aws_iot_mqtt_client_yield.c:180-240 | the do-while loop computes the specified iterations; with good reads a loss is counted exactly when a ping stays unanswered until the next timer |
| `ClientMachine.Machine.Yield` | src/aws_iot_mqtt_client_yield.c:261-306 | the specified yield; the invariant between calls is kept and, unless misled, the client is settled |
| `ClientMachine.Machine.ReadAndKeepAlive` | src/aws_iot_mqtt_client_yield.c:205-214 | a broken transport is always noticed; otherwise the state is kept or manually disconnected |
| `ClientMachine.Machine.Run` | src/aws_iot_mqtt_client_yield.c:261-306 | any sequence of application calls on the object keeps the invariant, the settled states and the bound on failed tries |
| `Ccm.MaskedTwice` | external_libs/mbedTLS/library/ccm.c:259-290 | the counter-mode part undoes itself for any block function |
| `Ccm.AuthenticatedRoundTrip` | external_libs/mbedTLS/library/ccm.c:307-349 | decryption returns a plaintext exactly for what encryption of that plaintext with the same parameters produced |
| `Ccm.CounterBlocksDiffer` | external_libs/mbedTLS/library/ccm.c:244-247 | counter blocks of different numbers in range differ |
| `Ccm.CountersDistinct` | external_libs/mbedTLS/library/ccm.c:244-299 | all counter blocks of one call, zero for the tag included, are pairwise distinct |
| `Ccm.FormatLength` | external_libs/mbedTLS/library/ccm.c:189-193 | the length goes into q bytes and is rejected exactly from 256^q on |
| `Ccm.MacHeader` | external_libs/mbedTLS/library/ccm.c:182-232 | the authentication state after the first block and the additional data, which CcmFormat.TagOfFormatted ties to the formatted string |
| `Ccm.CounterNext` | external_libs/mbedTLS/library/ccm.c:283-289 | the byte-wise increment leads from counter block n to n + 1 below 256^q |
| `Ccm.MessageLoop` | external_libs/mbedTLS/library/ccm.c:255-290 | the loop masks the message, authenticates the plaintext in both modes and uses counters 1, 2, ... |
| `Ccm.AuthCrypt` | external_libs/mbedTLS/library/ccm.c:137-302 | bad input exactly for the listed parameter ranges; else ciphertext, tag and distinct counters; the buffers may be the same |
| `Ccm.EncryptAndTag` | external_libs/mbedTLS/library/ccm.c:307-315 | the sealed message of the specification |
| `Ccm.TagsDiffer` | external_libs/mbedTLS/library/ccm.c:338-342 | the accumulated difference is zero exactly for equal tags |
| `Ccm.AuthDecrypt` | external_libs/mbedTLS/library/ccm.c:320-349 | the opened message, or authentication failure with the output zeroed |
| `CcmFormat.TagOfFormatted` | external_libs/mbedTLS/library/ccm.c:170-302 | the tag is the CBC-MAC of one formatted string, masked with the encrypted counter block zero and cut to its length |
| `CcmFormat.FormatReadsBack` | external_libs/mbedTLS/library/ccm.c:170-232 | nonce, tag length, additional data and message are read back from that string by a reader after SP 800-38C, flags, lengths and padding included |
| `CcmFormat.FormatInjective` | external_libs/mbedTLS/library/ccm.c:170-232 | two calls authenticate the same string only with equal nonce, tag length, additional data and message |
| `CcmFormat.StandardReadsBack` | external_libs/mbedTLS/library/ccm.c:165-166 | with the length limit of the standard the string is read back exactly unless there are 0xFF00 bytes of additional data |
| `CcmFormat.OneTooMany` | external_libs/mbedTLS/library/ccm.c:165-166 | such a call, which the code accepts and a reader after the standard does not understand |
| `CcmFormat.FirstBlockNoCounter` | external_libs/mbedTLS/library/ccm.c:182-247 | no counter block is the first block of an authenticated string, under any parameters |
| `CcmFormat.MaskedAt` | external_libs/mbedTLS/library/ccm.c:255-290 | byte i is masked with its byte of the encrypted counter block number i/16 |
| `Bytes.IncrementAdds` | external_libs/mbedTLS/library/ccm.c:283-289 | the increment loop adds one to the big-endian number modulo its range and touches nothing else |
| `Bytes.IncrementInPlace` | external_libs/mbedTLS/library/blowfish.c:380-382 | the loop on the counter block in place |
| `Blowfish.BlowfishEnc` | external_libs/mbedTLS/library/blowfish.c:100-127 | the round loop computes the sixteen-round specification |
| `Blowfish.BlowfishDec` | external_libs/mbedTLS/library/blowfish.c:129-156 | the descending round loop likewise |
| `Blowfish.RoundsUndone` | external_libs/mbedTLS/library/blowfish.c:100-156 | after j decryption rounds the halves are those of encryption round 16 - j under its keys |
| `Blowfish.DecInvertsEnc` | external_libs/mbedTLS/library/blowfish.c:100-156 | decryption inverts encryption for arbitrary P and S |
| `Blowfish.EncInvertsDec` | external_libs/mbedTLS/library/blowfish.c:100-156 | decryption is encryption under reversed subkeys, so encryption inverts decryption |
| `BlowfishModes.EcbInverse` | external_libs/mbedTLS/library/blowfish.c:232-255 | both directions on eight-byte blocks |
| `BlowfishModes.CryptEcb` | external_libs/mbedTLS/library/blowfish.c:232-255 | the block is loaded, ciphered and stored big-endian |
| `BlowfishModes.RoundFunction` | external_libs/mbedTLS/library/blowfish.c:81-98 | the four bytes of the word, most significant first, select from the four boxes in order; sum, mask and sum modulo 2^32 |
| `BlowfishModes.CbcBlock` | external_libs/mbedTLS/library/blowfish.c:285-305 | every block is masked with the ciphertext block before it and then encrypted |
| `BlowfishModes.CbcInverse` | external_libs/mbedTLS/library/blowfish.c:261-308 | CBC decryption inverts CBC encryption on every multiple of the block size |
| `BlowfishModes.CryptCbc` | external_libs/mbedTLS/library/blowfish.c:261-308 | both loops compute the specification, leave the last ciphertext block in the vector and allow output = input; other lengths are refused untouched |
| `BlowfishStreams.CfbSplit` | external_libs/mbedTLS/library/blowfish.c:315-356 | CFB64 output and state do not depend on how the buffer is split across calls |
| `BlowfishStreams.CfbInverse` | external_libs/mbedTLS/library/blowfish.c:315-356 | CFB64 decryption from the same state inverts encryption and ends in the same state |
| `BlowfishStreams.CfbAt` | external_libs/mbedTLS/library/blowfish.c:315-356 | every byte is masked with its byte of the encryption of the ciphertext block before its own, in both directions |
| `BlowfishStreams.CryptCfb64` | external_libs/mbedTLS/library/blowfish.c:315-356 | the byte loop computes the specification, at any offset, also in place |
| `BlowfishStreams.CtrSelfInverse` | external_libs/mbedTLS/library/blowfish.c:363-393 | CTR from the same state is its own inverse |
| `BlowfishStreams.CtrSplit` | external_libs/mbedTLS/library/blowfish.c:363-393 | CTR output does not depend on how the buffer is split |
| `BlowfishStreams.CtrAdvances` | external_libs/mbedTLS/library/blowfish.c:363-393 | m whole blocks advance the counter by m modulo 2^64 |
| `BlowfishStreams.CtrAt` | external_libs/mbedTLS/library/blowfish.c:363-393 | every byte is masked with its byte of the encryption of the counter plus the number of blocks before it |
| `BlowfishStreams.CryptCtr` | external_libs/mbedTLS/library/blowfish.c:363-393 | the byte loop computes the specification, at any offset, also in place |
| `Base64.EncodedLength` | external_libs/mbedTLS/library/base64.c:88-95 | the size computed from the bit count is 4 * ceil(n/3) |
| `Base64.EncodeBuffer` | external_libs/mbedTLS/library/base64.c:75-136 | text and terminating zero, or the needed size exactly when the buffer is too small |
| `Base64.FirstPassMeans` | external_libs/mbedTLS/library/base64.c:148-184 | acceptance means: n non-blank characters of the alphabet, pads last, at most two |
| `Base64.FirstPassLoop` | external_libs/mbedTLS/library/base64.c:148-184 | the scanning loop computes the specification; Base64Text.InvalidExactly says what it rejects |
| `Base64.SecondPassFits` | external_libs/mbedTLS/library/base64.c:186-215 | for every accepted input the second pass writes at most what the first computed, exactly that for whole groups |
| `Base64.SecondPassLoop` | external_libs/mbedTLS/library/base64.c:198-215 | the writing loop stays within the buffer and computes the specification |
| `Base64.DecodeBuffer` | external_libs/mbedTLS/library/base64.c:141-218 | every outcome of the two passes together |
| `Base64.RoundTrip` | external_libs/mbedTLS/library/base64.c:75-218 | decoding the encoding gives the bytes back, and the first pass predicts exactly their number |
| `Base64Text.InvalidExactly` | external_libs/mbedTLS/library/base64.c:148-184 | a text is rejected exactly when it holds a space that leads to neither a line end nor the end, a CR without LF, a character outside the alphabet, a third pad or a digit behind a pad |
| `Base64Text.BrokenRoundTrip` | external_libs/mbedTLS/library/base64.c:141-218 | a text that is an encoding apart from blanks decodes to what was encoded, exactly when its blanks are well placed |
| `Base64Text.BreakInserted` | external_libs/mbedTLS/library/base64.c:148-168 | inserting LF or CR LF, with spaces before it, anywhere but inside CR LF keeps the blanks well placed and the text the same |
| `Base64Text.DigitsOfStandard` | external_libs/mbedTLS/library/base64.c:44-53 | the 64 digits in the order of RFC 1521 |
| `Shadow.TopicNameInjective` | src/aws_iot_shadow_records.c:143-169 | different things, actions or acknowledgement kinds have different topics |
| `Shadow.CompleteKeepsInv` | src/aws_iot_shadow_records.c:250-288 | answering or expiring an outstanding ack keeps the reference counts |
| `Shadow.TrackKeepsInv` | src/aws_iot_shadow_actions.c:32-76 | a tracked request keeps them exactly when its topics are subscribed already or two table slots are free |
| `Shadow.NoRoomExample` | src/aws_iot_shadow_records.c:332-382 | with a full table a request is tracked although its topics are not delivered |
| `Shadow.StepKeepsInv` | src/aws_iot_shadow_actions.c:32-76 | the same for every kind of step |
| `Shadow.RunKeepsInv` | src/aws_iot_shadow_records.c:180-467 | in every run whose tracked requests find room: records are unique and count k or k+1 for k outstanding acks, and each tracked request is waiting or has had exactly one callback |
| `Shadow.OutstandingIsServed` | src/aws_iot_shadow_records.c:250-288 | both topics of an outstanding ack are delivered and counted at least as often as they are awaited |
| `ShadowReplies.RunReplies` | src/aws_iot_shadow_records.c:180-236 | over every run a request has been answered with a status exactly when a step freed its slot that was an acceptance, or a rejection, with the token of its own request, or for a time-out an expiry with its timer run out |
| `ShadowReplies.StepReplies` | src/aws_iot_shadow_records.c:209-231 | a step adds exactly the replies that are due |
| `ShadowReplies.WaitingWasAsked` | src/aws_iot_shadow_actions.c:32-76 | a waiting slot holds thing, action and token of the one request with its number |
| `ShadowReplies.UnknownToken` | src/aws_iot_shadow_records.c:209-231 | a response whose token nobody awaits changes nothing |
| `ShadowReplies.AcceptedTopics` | src/aws_iot_shadow_records.c:217-221 | a message counts as acceptance exactly when it came on an accepted topic or the name of the thing contains that word |
| `ShadowReplies.RejectionAccepted` | src/aws_iot_shadow_records.c:217-221 | a rejected update of the thing named accepted passes for an accepted one |
| `ShadowTopics.RunCounts` | src/aws_iot_shadow_records.c:250-288 | over every run without sticky requests for a thing and an action, both topics are subscribed exactly while acks are outstanding, with their number as count |
| `ShadowTopics.RunLasts` | src/aws_iot_shadow_records.c:250-288 | over every run both topics stay delivered from a sticky request on, until a request that is not |
| `ShadowRecords.Records.constructor` | src/aws_iot_shadow_records.c:290-302 | fresh tables satisfy the invariant |
| `ShadowRecords.Records.IsSubscriptionPresent` | src/aws_iot_shadow_records.c:304-330 | true exactly when both topics have a live record |
| `ShadowRecords.Records.SubscribeToShadowActionAcks` | src/aws_iot_shadow_records.c:332-382 | the two-slot allocation with its failure paths is the specification step |
| `ShadowRecords.Records.IncrementSubscriptionCnt` | src/aws_iot_shadow_records.c:384-400 | every live record of the two topics is incremented, in place |
| `ShadowRecords.Records.UnsubscribeOne` | src/aws_iot_shadow_records.c:263-274 | a record is dropped at count 1 unless sticky, decremented above 1, else kept |
| `ShadowRecords.Records.AckStatusCallback` | src/aws_iot_shadow_records.c:180-236 | the first waiting request with the token gets one reply, ACK_ACCEPTED or ACK_REJECTED by the topic of the message, and its slot is freed; without one nothing changes; the invariant is kept |
| `ShadowRecords.Records.HandleExpiredResponseCallbacks` | src/aws_iot_shadow_records.c:453-467 | exactly the slots with expired timers are freed and answered with ACK_TIMEOUT; the invariant is kept |
| `ShadowRecords.Records.InternalAction` | src/aws_iot_shadow_actions.c:32-76 | the request step; the invariant is kept exactly when there is room |

## Left out

- TLS, sockets, real timers, mutexes and partial writes of `send_packet`: only their results enter.
- AES, Camellia, ARC4, hashes, ASN.1, X.509 and the TLS protocol of mbed TLS.
- Primality tests, prime generation, random fill, radix conversion and file input and output of the multi-precision integers.
- Freeing and zeroing of memory, and constant-time behaviour.
- Building and parsing shadow JSON documents with libc formatting, and the delta token table.
- The Blowfish key schedule: the proofs hold for whatever it produces.
- `JSMN_STRICT` and `JSMN_PARENT_LINKS` builds of the tokenizer.
- The message-handler table: a delivery is the sequence of client calls its callbacks make, a resubscription the sequence of its subscribes.
- Connecting from within a callback, and a disconnect handler that calls the client.
- `attempt_reconnect` called by the application: it enters PENDING_RECONNECT without starting the interval.
- Acknowledgement packets (CONNACK, PUBACK, SUBACK, UNSUBACK) are results of the read script, not bytes.
- Aliasing of input and output at different offsets of one buffer in the cipher modes; separate buffers and the same buffer are covered.
- Failure of subscribe, publish and unsubscribe inside the shadow steps, and callbacks that re-enter them.
- Division.DivMpi: takes the branch with a double-width type, and asks that the quotient object differs from both operands and the remainder object; the source writes it before the operands are last read.
- Division.ModMpi: asks that the result is not the modulus object; the source then compares the result with itself and does not end.
- Exponentiation.ExpMod: asks that the result is neither the exponent nor the modulus object, which the source overwrites before it reads them.
- Packets.SerializePublish: asks that the packet size fits 32 bits, in which the source computes it.
- Packets.SerializeSubscribe: asks the same.
- Packets.SerializeUnsubscribe: asks the same.
- ClientMachine.Machine.Request: does not model the subscription table update that follows a successful acknowledgement.
