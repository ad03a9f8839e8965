# A verified model of the FLUTE/ALC receiver core

The repository implements file delivery over unidirectional transport: a file is cut into
source blocks and encoding symbols, protected by an erasure code, sent over ALC and put
together again by the receiver. This project models the parts of it that compute something
and proves what they are for. `dafny verify dfyconfig.toml` checks everything.

**The Reed-Solomon erasure code** (`alclib/fec.c`). `Field` defines the shift register and the
product of GF(2^16) by shifting and adding; `Primitive` proves that the register runs through
all 65535 non-zero elements (`Words` evaluates the powers this needs on 16-bit words);
`FieldLaws` derives the field laws; `Tables` proves that the tables filled by `generate_gf` and
the table-driven product agree with the definition. On top of that, `Linear`, `Kernels`,
`GaussJordan`, `InvertMat`, `Polynomials`, `Vandermonde` and `InvertVdm` cover the linear
algebra on flat in-place arrays, and `Codec`, `Fec`, `Shuffle` and `FecPackets` the code itself:
any k of the n packets give the source packets back, and decoding fails exactly on index lists
that are no k distinct indices.

**Block codecs and the unit list.** `Transport` models `insert_unit` on doubly linked nodes and
what a receiver's list is after any sequence of arrivals; `NullFec`, `XorFec` and `RsFec` the
three block codecs with their round trips under loss, reordering and duplication; `Objects` the
loop that joins blocks to an object. `Symbols` holds the cutting into symbols.

**Congestion control** (`alclib/mad_rlc.c`). `RlcState` says what every routine does to the late
and lost lists, with the invariant over all runs; `RlcProperties` spells out what a packet and a
stream of packets do to the numbers, times and layers; `Rlc` is the imperative code proved
against it.

**Smaller cores.** `B64Dec` (resumable in-place base64 decoder), `Utf8` (ISO-8859-1/UTF-8
converters), `Blocking` and `SymbolSearch` (block partition, padding, offset to symbol), `Fdt`
(merging a received file table).

Imperative code is modelled by methods with loops over arrays and linked objects, each proved
against a function or predicate on values; the lemmas then state what the source promises about
those functions. A hidden definition (`hide`) only keeps proofs short.

Where the code and its documentation differ, the model follows the code:

- `invert_vdm` is documented for any Vandermonde matrix, but it never computes the constant
  coefficient of its polynomial. `Vandermonde.VdmExact` proves that for distinct points the
  result is the inverse exactly when there are at most two points or one of the first two is 0.
  `fec_new` always passes 0 as the first point.
- The UTF-8 decoder's comment names the SUB character (0x1A) for what ISO-8859-1 cannot
  represent; the code writes a question mark.
- Across the wrap of the 16-bit sequence numbers, `mad_rlc_check_sequence` always records 100
  late packets, however many are missing; `RlcState.GapExact` says when the record is right.
- `update_fdt` is meant to return 2 for new entries, but an entry with TOI 0 and no other field
  is added without being reported; `Fdt.TwoExactly` gives the exact condition.

## Model

| member | source | states |
|---|---|---|
| Primitive.PowDistinct | alclib/fec.c:286-314 | the 65535 powers of alpha that the shift register produces are pairwise distinct, so the polynomial in use is primitive |
| Primitive.PowOrder | alclib/fec.c:318-321 | alpha^65535 = 1: the second half of the exponential table continues the first |
| FieldLaws.LogUnique | alclib/fec.c:280-314 | exponential and logarithm are mutually inverse on the non-zero elements |
| FieldLaws.MulAssoc | alclib/fec.c:225-231 | the product of the field is associative |
| FieldLaws.MulComm | alclib/fec.c:225-231 | the product of the field is commutative |
| FieldLaws.MulAdd | alclib/fec.c:225-231 | the product distributes over exclusive or |
| FieldLaws.MulNonzero | alclib/fec.c:225-231 | there are no zero divisors |
| FieldLaws.MulInv | alclib/fec.c:323-331 | every non-zero element times its inverse is 1 |
| Tables.Modnn | alclib/fec.c:182-190 | the division-free loop computes x mod 65535 for every x >= 0 |
| Tables.GfMul | alclib/fec.c:225-231 | the sum of logarithms looked up in the exponential table is the product by shifting and adding |
| Tables.ShiftRegister | alclib/fec.c:301-314 | one step of the register with the terms taken from the polynomial string is multiplication by x |
| Tables.GenerateGf | alclib/fec.c:271-332 | the loops leave the powers, the logarithms and the inverses of all elements in the tables |
| Kernels.AddMul1 | alclib/fec.c:350-387 | the 16-way unrolled loop adds c times the source to the destination entry by entry, for every size |
| Kernels.Addmul | alclib/fec.c:347-348 | so does the macro, which skips a zero factor |
| Kernels.Matmul | alclib/fec.c:392-407 | the triple loop with moving pointers stores the matrix product and touches nothing else |
| GaussJordan.SwapStep | alclib/fec.c:491-502 | the row swap keeps the exchange relation between the matrix and the original equations |
| GaussJordan.PivotStep | alclib/fec.c:505-539 | scaling the pivot row and clearing its column keeps it with one more variable exchanged |
| GaussJordan.NoPivot | alclib/fec.c:464-490 | when no pivot is left, the original matrix is singular |
| GaussJordan.UnscrambleStep | alclib/fec.c:541-552 | undoing a row swap on the columns keeps the solutions of the equations |
| GaussJordan.SolvesInverse | alclib/fec.c:438-561 | a matrix that solves all equations in their order is the two-sided inverse |
| InvertMat.FindPivot | alclib/fec.c:464-490 | the search finds a non-zero entry outside the pivot rows and columns whenever there is one |
| InvertMat.SwapRows | alclib/fec.c:491-502 | in place, exactly the two rows change places |
| InvertMat.ScalePivotRow | alclib/fec.c:505-520 | the pivot row is divided by the pivot, whose place takes the inverse; a pivot of 1 needs no division |
| InvertMat.ClearColumn | alclib/fec.c:522-539 | every other row loses its multiple of the pivot row |
| InvertMat.TakePivot | alclib/fec.c:491-539 | swapping, scaling and clearing is one exchange step on the matrix, also when a pivot row that is a unit row already is skipped |
| InvertMat.Eliminate | alclib/fec.c:453-540 | the column loop either finds the matrix singular or exchanges all variables |
| InvertMat.Unscramble | alclib/fec.c:541-552 | the final loop swaps the columns back in reverse order |
| InvertMat.InvertMat | alclib/fec.c:437-561 | for every k by k matrix: 1 is returned exactly for singular matrices, otherwise the two-sided inverse is left in place |
| Polynomials.Division | alclib/fec.c:611-626 | synthetic division: a(z) - a(x) = (z - x) q(z) |
| Polynomials.ManyRoots | alclib/fec.c:714-735 | a non-zero polynomial has fewer roots than coefficients |
| Vandermonde.ExactInverse | alclib/fec.c:563-629 | the columns of coefficients of the Lagrange basis polynomials invert the matrix of powers |
| Vandermonde.VdmExact | alclib/fec.c:575-629 | for distinct points, what invert_vdm computes is the inverse exactly if there are at most two points or one of the first two is 0 |
| InvertVdm.InvertVdm | alclib/fec.c:575-629 | the method leaves exactly those columns in the top of the matrix, without writing behind it |
| Codec.TopInverseExact | alclib/fec.c:714-730 | for the evaluation points of the code, the top of the matrix is inverted exactly; EncodesPolynomial says which points these are |
| Codec.Systematic | alclib/fec.c:731-743 | the first k rows of the encoding matrix are the identity |
| Codec.EncodesByEvaluation | alclib/fec.c:714-743 | encoding symbol i is the value of a polynomial of degree below k at the point of row i |
| Codec.Interpolates | alclib/fec.c:714-743 | that polynomial goes through the source symbols |
| Codec.SourcePolynomial | alclib/fec.c:714-730 | every source is the values of a polynomial of degree below k at 0, 1, alpha, ..., alpha^(k-2) |
| Codec.EncodesPolynomial | alclib/fec.c:714-743 | if the source symbols are the values of a polynomial of degree below k at 0, 1, alpha, alpha^2, ..., then encoding symbol 0 is its value at 0 and encoding symbol i its value at alpha^(i-1), for all i up to 65535 |
| Codec.EncodesPackets | alclib/fec.c:714-786 | the same for packets, position by position |
| Codec.AnyRowsInvertible | alclib/fec.c:832-861 | any k distinct rows of the encoding matrix are linearly independent |
| Codec.PacketsDetermineSource | alclib/fec.c:881-930 | two sources whose packets agree at k distinct indices are equal |
| Fec.FecNew | alclib/fec.c:688-746 | fails exactly on k or n out of range; otherwise row i of the matrix is row i of the systematic code, for every i below n, which EncodesPolynomial describes |
| FecPackets.FecEncode | alclib/fec.c:759-786 | writes the encoding packet with the given index, which EncodesPackets describes; an index out of range writes nothing |
| Shuffle.SwapPlaces | alclib/fec.c:805-819 | every swap makes the number of misplaced entries smaller, so the loop ends |
| Shuffle.Shuffle | alclib/fec.c:791-824 | indices and packets are permuted together; 1 is returned exactly if a source index is duplicated, and after 0 every source index sits at its own position |
| FecPackets.BuildDecodeMatrix | alclib/fec.c:831-861 | NULL exactly if an index is invalid or the selected rows are singular, otherwise their inverse |
| FecPackets.FecDecode | alclib/fec.c:881-930 | returns 0 exactly for k distinct valid indices, in any order, and then leaves packets that encode to the received ones |
| FecPackets.DecodedIsSource | alclib/fec.c:881-930 | if the received packets are encodings of a source at distinct indices, the decoded packets are that source |
| Transport.InsertUnit | alclib/transport.c:526-611 | the list stays sorted by esi with consistent links both ways and a correct count; 1 exactly for duplicates, which change nothing; rx_bytes grows up to the object length |
| Transport.InsertAt | alclib/transport.c:553-603 | inserting before the first larger esi is sorted insertion |
| Transport.ReceiverInvariant | alclib/transport.c:526-611 | after any arrivals the list is sorted and holds exactly the first arrival of every esi, and rx_bytes is the capped sum of the accepted lengths |
| Transport.ReceivesAnyOrder | alclib/transport.c:526-611 | whatever the order and the duplicates, the list is what was sent, sorted |
| Transport.BlockReadyToDecode | alclib/alc_rx.c:4561-4588 | ready exactly at k or max_k units |
| Transport.StopsWhenReady | alclib/alc_rx.c:3212-3234 | a block that takes no units once it is ready holds at most k, and all that arrived until then |
| NullFec.EncodeSrcBlock | alclib/null_fec.c:93-204 | the units in the order of the unit array: all symbols of the block, symbol 0 last |
| NullFec.EmittedEach | alclib/null_fec.c:93-204 | unit j has esi j + 1, the last one esi 0, and carries the stretch of es_len bytes at its esi, the last stretch short |
| NullFec.DecodeSrcBlock | alclib/null_fec.c:206-277 | the payloads of the list one after the other, zeros behind them |
| NullFec.RoundTrip | alclib/null_fec.c:93-277 | once every emitted unit has arrived, in any order and with duplicates, decoding gives the data back |
| XorFec.EncodeSrcBlock | alclib/xor_fec.c:41-159 | the symbols of the block and behind them the exclusive or of all of them, padded |
| XorFec.EncodedEach | alclib/xor_fec.c:41-159 | unit i has esi i and carries the stretch of es_len bytes at i, and a full symbol with esi k follows |
| XorFec.ParityBits | alclib/xor_fec.c:94-140 | bit by bit, the parity symbol is the number of ones of all symbols modulo 2 |
| XorFec.RecoverLost | alclib/xor_fec.c:227-243 | the exclusive or of all other symbols and the parity is the lost symbol, padded |
| XorFec.FindMissing | alclib/xor_fec.c:208-225 | the scan finds the one esi that is skipped |
| XorFec.XorReceived | alclib/xor_fec.c:227-243 | the loops compute the exclusive or of all received symbols |
| XorFec.SpliceMissing | alclib/xor_fec.c:255-303 | relinking inserts the rebuilt unit at its esi and cuts the parity unit off, with all links consistent |
| XorFec.DecodeSrcBlock | alclib/xor_fec.c:161-331 | any k units decode: the list becomes the restored one and the buffer its payload, zero-padded |
| XorFec.RestoresErasure | alclib/xor_fec.c:196-307 | for every block and every single erasure, the first, the short last and the parity symbol included, the list again holds esi 0 to k-1 |
| XorFec.RoundTrip | alclib/xor_fec.c:41-331 | if all symbols but one arrive, in any order and with duplicates, the decoder yields the data zero-padded to k * es_len |
| RsFec.EnoughSymbols | alclib/rs_fec.c:71-75 | with max_n and n rounded down as computed, max_n is never below max_k and n never below k |
| RsFec.Numbers | alclib/rs_fec.c:72-76 | 100 max_n <= max_k (100 + rs) < 100 (max_n + 1) and n max_k <= k max_n < (n + 1) max_k |
| RsFec.SameNumber | alclib/rs_fec.c:72-76 | these bounds leave one n, so encoder and decoder have the same |
| RsFec.EncodeSrcBlock | alclib/rs_fec.c:42-160 | k is the number of es_len byte symbols of the data, max_n and n are the quotients rounded down of max_k (100 + rs) by 100 and of k max_n by max_k; unit i holds encoding symbol i of the zero-padded block, for all n units, each in its own buffer |
| RsFec.DecodeSrcBlock | alclib/rs_fec.c:162-232 | n is the quotient of k max_n by max_k rounded down; with k units of esi below n, the buffer holds packets that encode to what was received |
| RsFec.SourceBytes | alclib/rs_fec.c:99-130 | the source packets, as bytes, are the data zero-padded to k * es_len |
| RsFec.SourceWord | alclib/rs_fec.c:99-130 | word j of source packet i is the two bytes of the data at i * es_len + 2 j, zero behind its end |
| RsFec.RoundTrip | alclib/rs_fec.c:42-232 | whichever k of the n units arrive, in any order and with duplicates, the decoder yields the data zero-padded to k * es_len |
| Objects.DecodeObject | alclib/rs_fec.c:236-285 | the loop leaves the decoded blocks one after the other, cut off at the object length |
| Objects.ObjectRestored | alclib/null_fec.c:299-345 | padding behind the last block does not reach the object |
| RlcState.AnalyzeKeeps | alclib/mad_rlc.c:571-626 | every packet keeps the counters equal to the lengths of the lists, the losses below the limit, and the late count since the synchronisation point equal to the late count if none are accepted |
| RlcState.SilentKeeps | alclib/mad_rlc.c:593-600 | a packet in the deaf period leaves both lists empty |
| RlcState.InitInv | alclib/mad_rlc.c:465-493 | the initial state satisfies the invariant |
| RlcState.RunSilent | alclib/mad_rlc.c:571-626 | in every reachable state, all lists are empty while the receiver is deaf |
| RlcState.LossLifetime | alclib/mad_rlc.c:360-381 | unless the lists are flushed, after any run the lost list ends with the old losses, aged by one for every accepted packet |
| RlcState.LossesLast | alclib/mad_rlc.c:360-381 | a loss with count x is on the list for exactly x packets |
| RlcState.ExpiredGone | alclib/mad_rlc.c:317-349 | after the list updates no late packet of the session's layers is beyond its time |
| RlcState.GapExact | alclib/mad_rlc.c:394-463 | the late packets recorded for a gap are the missing ones exactly if the gap is at most 100, or exactly 100 across the wrap |
| RlcProperties.ExpectedNumber | alclib/mad_rlc.c:401-460 | the number expected on a layer becomes the packet's plus 1, modulo 65536, if the packet is less than 32768 ahead, exactly 32768 ahead across the wrap, the first one, or comes in the deaf period; otherwise it stays, and other layers keep theirs |
| RlcProperties.GapRecorded | alclib/mad_rlc.c:408-461 | after a gap the missing numbers, at most 100 (always 100 across the wrap), the youngest first, each with its time plus the packet timeout, stand in front of what was awaited; other layers get none |
| RlcProperties.LateArrival | alclib/mad_rlc.c:430-441 | a late packet takes exactly one entry with its own number off its late list, if there is one, and nothing else |
| RlcProperties.Survivors | alclib/mad_rlc.c:331-343 | of a late list exactly the entries whose time has not come stay |
| RlcProperties.InOrderQuiet | alclib/mad_rlc.c:571-626 | any stream that is in order and without loss on every layer leaves both lists empty, never makes the receiver deaf and never drops a layer |
| RlcProperties.FlushExactly | alclib/mad_rlc.c:276-295 | the lists are flushed exactly if late packets have expired and their number plus that of the losses that do not age out reaches the limit |
| RlcProperties.FlushMarks | alclib/mad_rlc.c:279-295 | a flush empties lists and counters, marks the channel of the highest layer as new, sets the end of the deaf period, and the layer is left unless it is the only one |
| RlcProperties.LossesAfter | alclib/mad_rlc.c:317-381 | every expired late packet becomes a loss with the full count, every older loss counts one less or is gone |
| RlcProperties.JoinExactly | alclib/mad_rlc.c:64-139 | the exact condition under which a packet makes the receiver join a layer, and that both counts then restart |
| RlcProperties.SinceSp | alclib/mad_rlc.c:187-306 | since the last synchronisation point losses grow by the expired packets and late packets by what the late lists grow |
| RlcProperties.LeavesOnlyAfterFlush | alclib/alc_rx.c:3676-3680 | without a flush no layer is left |
| RlcProperties.Rejected | alclib/mad_rlc.c:583-588 | a packet with a wrong marker or of an unknown layer changes nothing |
| Rlc.MadRlc.constructor | alclib/mad_rlc.c:465-493 | the initial receiver state and the limits 500 ms, 10000 ms, 0, 0, 1 and 20 |
| Rlc.MadRlc.FreeLists | alclib/mad_rlc.c:148-174 | empties all lists and zeroes the four counters, nothing else |
| Rlc.MadRlc.AddLate | alclib/mad_rlc.c:187-214 | a new head of the layer's list with its deadline, counted twice; -1 and no change beyond the layers |
| Rlc.MadRlc.RemoveLate | alclib/mad_rlc.c:227-257 | the first entry with the number leaves the list and the counters; -1 and no change if there is none |
| Rlc.MadRlc.AddLost | alclib/mad_rlc.c:269-306 | a new loss with the full count, or, at the limit, all lists flushed, the highest layer marked and the deaf period entered |
| Rlc.MadRlc.UpdateLateList | alclib/mad_rlc.c:317-349 | all expired packets become losses, or, if they are too many, everything is dropped; the early return makes no other difference |
| Rlc.MadRlc.UpdateLossList | alclib/mad_rlc.c:360-381 | walking and unlinking ages every loss by one and removes those at 0 |
| Rlc.MadRlc.CheckSequence | alclib/mad_rlc.c:394-463 | the code of the two 16-bit differences is the step that ExpectedNumber, GapRecorded and LateArrival describe |
| Rlc.MadRlc.ProcessRxSp | alclib/mad_rlc.c:64-139 | a channel is joined only if losses and late packets are within what is accepted, and then both counts restart |
| Rlc.MadRlc.AnalyzeCci | alclib/mad_rlc.c:571-626 | the whole step of the receiver for one packet, which the theorems of RlcProperties describe; -1 exactly for a wrong marker or an unknown layer |
| Rlc.MadRlc.LeaveHighest | alclib/alc_rx.c:3676-3680 | the marked highest layer is left unless it is the only one |
| B64Dec.Decoder.constructor | flutelib/b64dec.c:66-81 | the start state in plain and in title mode |
| B64Dec.Decoder.Decode | flutelib/b64dec.c:109-228 | decoding in place yields what the characters decode to, the write position never passes the read position, and what lies behind it is untouched |
| B64Dec.Decoder.Proc | flutelib/b64dec.c:86-238 | with the error cases: a finished decoder reports the end once and keeps reporting it, and the buffer is not touched then |
| B64Dec.Decoder.Finish | flutelib/b64dec.c:244-254 | an earlier error first, then bad data if an invalid character was seen |
| B64Dec.ChunkIndependent | flutelib/b64dec.c:86-238 | however the input is cut into pieces, the bytes and the verdict on the encoding are those of one call |
| B64Dec.WhiteSpaceIgnored | flutelib/b64dec.c:164-191 | line feeds, blanks, carriage returns and tabs anywhere make no difference |
| B64Dec.DecodeEncode | flutelib/b64dec.c:165-215 | decoding an RFC 4648 encoding gives the data back |
| B64Dec.RoundTrip | flutelib/b64dec.c:66-238 | encoded, with white space inserted anywhere, cut anywhere and decoded in plain mode, any data comes back with no error |
| B64Dec.InvalidExactly | flutelib/b64dec.c:186-191 | up to the padding, the flag is set exactly if a character is neither in the alphabet nor white space |
| B64Dec.EndReported | flutelib/b64dec.c:97-104 | in plain mode the next call reports the end exactly if a line feed has come behind a padding character, and it keeps reporting it |
| B64Dec.StopsExactly | flutelib/b64dec.c:164-226 | from the first base64 character on, the decoder stops exactly at a line feed behind a padding character in plain mode, behind a dash in title mode |
| B64Dec.TitleRoundTrip | flutelib/b64dec.c:114-226 | in title mode all lines before the begin line are skipped, the encoding behind it is decoded, and the first dash ends it |
| B64Dec.ArmorRoundTrip | flutelib/b64dec.c:135-226 | of PGP armor the header lines up to the first blank one are skipped, too |
| Utf8.ReadCharacter | flutelib/mad_utf8.c:52-69 | a first byte and as many continuation bytes as announced, at most up to the next start or the end of the string |
| Utf8.ToIso | flutelib/mad_utf8.c:48-93 | the result depends on the string up to its terminator only and is what DecodesEach and Resynchronises describe; without a buffer the full length is counted, with one as much as fits is written, and a zero if there is room |
| Utf8.ToUtf8 | flutelib/mad_utf8.c:95-141 | without a buffer the full length is counted; with one the characters that fit are converted, whole characters only, and a zero is written if there is room |
| Utf8.DecodesUtf8 | flutelib/mad_utf8.c:48-93 | UTF-8 text of any code points is read character by character |
| Utf8.DecodesEach | flutelib/mad_utf8.c:48-93 | one byte comes out per code point: the code point up to 0xFF, 63 (a question mark) for every other, for all forms up to six bytes |
| Utf8.Resynchronises | flutelib/mad_utf8.c:61-69 | whatever comes before, valid or not, decoding starts afresh at every byte that is not a continuation byte |
| Utf8.EncodesUtf8 | flutelib/mad_utf8.c:95-141 | what the encoder writes is UTF-8 |
| Utf8.FittingLongest | flutelib/mad_utf8.c:95-141 | what is converted into a buffer is the longest beginning of the text that fits |
| Utf8.Decode | flutelib/mad_utf8.c:48-93 | for any bytes, malformed ones included, at most one byte comes out per byte |
| Utf8.RoundTrip | flutelib/mad_utf8.c:48-141 | given room, the encoder leaves a C string, and decoding it restores the text |
| Blocking.Partition | alclib/blocking_alg.c:40-97 | L <= T*E < L+E, (N-1)*B < T <= N*B, N*A_small <= T <= N*A_large, A_large <= B, the sizes differ by at most one, and T mod N large blocks add up to T |
| Blocking.NoPadding | flutelib/padding_encoding.c:52-57 | no padding exactly for files of at most one block and for multiples of the block size |
| Blocking.PaddingFills | flutelib/padding_encoding.c:49-63 | the padding is the least that completes the last block |
| Blocking.PaddedPartition | flutelib/fdt_gen.c:275-287 | a padded file has only full blocks of B symbols and N*B*E is its size |
| SymbolSearch.Search | alclib/alc_rx.c:2790-2812 | every offset up to the transfer length is found: with fx / tx + 1 symbols in zx blocks, the first ones longer by one, the symbol lies at the reported place; beyond the symbols, no block is found |
| SymbolSearch.SymbolHasPlace | alclib/alc_rx.c:2790-2812 | every symbol has exactly one block and position |
| SymbolSearch.PlaceHasSymbol | alclib/alc_rx.c:2790-2812 | every position in a block holds exactly one symbol of the object |
| Fdt.CopyFileInfo | flutelib/fdt.c:103-232 | field by field, a present field stays and an absent one takes the source's value; 1 is returned exactly if something changed |
| Fdt.FindFileWithToi | flutelib/fdt.c:844-856 | the first entry with the TOI, or null |
| Fdt.UpdateFile | flutelib/fdt.c:726-786 | one file complements the entry with its TOI or is linked in behind the last one |
| Fdt.UpdateFdt | flutelib/fdt.c:708-790 | a whole instance is merged file by file, with the return code; the instance is not changed |
| Fdt.UpdateAllFacts | flutelib/fdt.c:708-790 | field by field, none that is present changes; TOIs stay unique and become the union, and the number of files grows by the number of new TOIs |
| Fdt.FieldOrigin | flutelib/fdt.c:708-790 | every field of every entry is the table's if it had one, otherwise that of the first description of the instance with the TOI and the field, otherwise absent |
| Fdt.Idempotent | flutelib/fdt.c:708-790 | the same instance again changes nothing and returns 0 |
| Fdt.CodeMeaning | flutelib/fdt.c:708-790 | without empty descriptions: 2 exactly for new files, 0 exactly if nothing changed, 1 otherwise |
| Fdt.ReturnsTwo | flutelib/fdt.c:753-778 | 2 exactly if a new entry has some field |
| Fdt.TwoExactly | flutelib/fdt.c:753-778 | 2 tells new files exactly, unless the only new TOI is 0 and its first description is empty |
| Fdt.EmptyDescription | flutelib/fdt.c:753-778 | an empty description is added and 0 is returned |

## Left out

- Field width: `GF_BITS` is 16 as configured; the 8-bit multiplication table and other widths are not modelled, nor are `init_fec`, `fec_free`, the magic number and the self tests.
- Integer widths: `row*col` in `fec_new`, `k*max_n` in `rs_fec.c`, sizes and counters are unbounded integers; 16-bit sequence numbers, the 16-bit symbols and the unsigned subtraction of the symbol search are modelled with their width.
- Pointers into buffers are an array and an offset; the encoding matrix and the tables become sequences once they are filled, as nothing writes them later.
- RsFec.EncodeSrcBlock: the block is not empty and has at most 65535 source symbols, the size of the array of pointers; es_len is even, as a symbol has 16 bits; with an odd es_len the last byte of a symbol is not coded at all.
- RsFec.DecodeSrcBlock: the low and the high byte of a symbol are packed in one fixed order, so the byte order of the machine is not modelled; freeing the unit buffers is not either.
- NullFec.EncodeSrcBlock: the quotient rounded up by way of doubles is the integer quotient rounded up.
- XorFec.DecodeSrcBlock: freeing the received symbols and the parity unit.
- Transport.InsertUnit: the payload of a unit does not change between filling and decoding it; `insert_object`, which has the same shape, is not repeated.
- Transport.BlockReadyToDecode: the mode that counts symbols instead of units, and the receiver's temporary correction of the count by lost packets (`alclib/alc_rx.c:3207-3222`).
- Rlc.MadRlc.AnalyzeCci: the clock is read once per packet and passed in; counters are integers, so that a wrap of the 16-bit counters is not modelled; joining a channel, with its address arithmetic, is a parameter; `lost_packets` statistics are left out.
- Rlc.MadRlc.AddLate: the guard lets a layer equal to the number of channels pass; the model keeps it and asks for a layer within the arrays.
- Utf8.ToIso: `count` converted to int.
- Fdt.UpdateFdt: the table has at least one file, since the code follows its first entry without a test; the two lists share no entries.
- The sender side of congestion control, `update_blocking_structure`, the field `I` of the blocking structure, object lists, sessions, sockets, threads and locks, XML, compression, HTTP repair and RaptorQ.
- Allocation never fails.
