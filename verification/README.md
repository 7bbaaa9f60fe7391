# A verified model of the Mantis sensor-node system

Mantis is an operating system for small sensor nodes, written in C. This project models its most intricate parts in
Dafny and proves what their documentation promises, or exactly when the code keeps the promise.

* **Error correction** (`Gf256`, `Field`, `Polynomials`, `BerlekampMassey`, `ReedSolomon`, `FecSpec`, `FecBeyond`,
  `Fec`, `FecOutcome`): a Reed-Solomon code over GF(256). The field is built from shift and exclusive-or and shown to be
  a field; the Berlekamp-Massey loop is shown to find a shortest recurrence; with Forney's formula this gives the
  promise of the header: any parity/2 wrong bytes are corrected, for every message. What is answered to every other
  word is characterised, too. Class `Fec` is the C code on its shared arrays.
* **Arithmetic coder** (`ArithModel`, `ArithSpec`, `ArithAdaptive`, `BitStream`, `BitBuffers`, `ArithCode`): an adaptive
  16-bit range coder. An unbounded interval stands for the emitted bits and the pending ones; the decoder's registers
  are shown to be the encoder's at every symbol, so decoding inverts encoding on every message. The model counts the
  bytes, and the code is as short as the counts allow.
* **Deluge** (`DelugeNode`, `DelugeNetwork`, `DelugeSafety`, `DelugeProgress`, `DelugeRules`, `DelugeCompletion`,
  `DelugeApp`): epidemic dissemination of a program image. `DelugeNode` says what each handler does to a node,
  `DelugeNetwork` puts any number of nodes on a medium that loses, repeats and reorders, `DelugeSafety` proves what
  holds in every run, `DelugeProgress` that one exchange that is heard gains a page, `DelugeRules` who is answered and
  who keeps quiet in every run, `DelugeCompletion` that from the end of every run all nodes can still be brought to the
  newest release, and class `DelugeApp.App` is the C code.
* **Search tree** (`TreeShape`, `TreeSplay`, `Tree`): nodes with left, right and parent pointers on the heap; rotation,
  splaying, insertion and deletion in place, against a ghost shape. Splaying halves the path, and any sequence of
  accesses takes logarithmic time on average.
* **Flash** (`Flash`): two page buffers written back late refine one flat memory.
* **RC5** (`Rc5`, `Rc5Equations`, `Rc5Modes`, `Rc5Buffers`): the block cipher with its defining equations, chaining with
  ciphertext stealing (section 8 of RFC 2040) and the authentication code.
* **CRC-CCITT** (`Crc`): the checksum as a polynomial remainder, and what it detects.
* **Serial framing** (`Uart`), **buffer pool** (`Com`), **collection-tree queues** (`Ctp`, `CtpQueues`) and **file
  table** (`SimpleFs`).

Where the C code changes things in place there is a class or a method on arrays, proved against functions; what the
code is for is then proved about those functions. Bits and words are numbers, bit-vectors or sequences of bits,
whichever states the operation most directly; widths and casts are written out.

## Choices

* Error correction: 1 to 8 parity bytes and at most 255 bytes in all. The parity is behind the message or in an array
  of its own; corrections are made in the message and the bytes behind it in either case. The syndrome array has 16
  entries of which only the first parity are ever given a value; the products that read further are shown not to depend
  on them.
* Arithmetic coder: bytes are unsigned, and the input has one byte more than the message, which the code also encodes.
* Deluge: the home instance as compiled by the repository's headers (no reprogramming, forwarding build, symmetric
  links, no distance check on member nodes, 48 packets of 56 bytes a page). Whether a link is symmetric, what a new file
  or the rest of a packet buffer holds, and when an alarm fires are free choices of the run. Entering the transmission
  state and taking its snapshot are one step; the turns of the transmission loop are steps of their own, between which
  other handlers run.
* Deluge's image is compared with the publisher's by its bytes; the checksum is an arbitrary function.
* Flash: the chip's commands act on the contents of its memory and buffers; waiting for the chip takes no time. What a
  buffer holds after it was given more bytes than it has is a parameter. The operations are specified in the states an
  unknown mode or a comparison leaves behind, too.
* Buffer pool: a receiver that finds its queue empty after it was woken, and follows the null pointer, gets null.
* The rotation macros are modelled case by case; their single-bit assembly loops as single-bit rotation.
* File table: the number of entries is not part of the repository's headers and is left open up to 127; lengths are
  such that 32-bit sums do not wrap, the number of the next page has 16 bits.

## Where the code falls short of its documentation

* `right_rotate_node` and `left_rotate_node` do not update the root pointer.
* `mos_file_create` keeps its lock when the search finds nothing, and its second search can go on for ever, or find a
  place that runs past the end of the flash; renaming a file to its own name removes it.
* An unknown flash mode while a buffer is dirty, and a comparison while the default buffer holds a clean page, make the
  flash driver lose bytes; its write function returns zero. Its sum of an offset and a count has 16 bits: when it wraps,
  a read can miss the dirty page, and a write or a comparison deals with the first page of its range only.
* One stray preamble byte, or a size that is too large right before a header, costs the serial receiver the next
  packet, and a packet that announces size zero takes it out of its buffer from the 65th byte to the 256th.
* A Deluge request for the page being sent that arrives between the last look of the transmission loop at what is
  wanted and its end is taken down but not answered. The checksum of a last page that is full covers no bytes.
* Any other receiver, blocking or not, can take the only buffer from under one that has just been woken, and so can one
  that was woken itself.
* A word with more than parity/2 wrong bytes can count as corrected and be no codeword. With the parity in an array of
  its own, as the radio uses it, a wrong parity byte makes the decoder change a byte behind the message.

## Model

| member | source | states |
|---|---|---|
| Gf256.AlphaOrder | mantis-1.0-beta/src/lib/fec.c:98-133 | x has order exactly 255 modulo the field polynomial, so the loop that fills the power table meets no power twice |
| Gf256.LogExists | mantis-1.0-beta/src/lib/fec.c:98-133 | every nonzero byte is one of the first 255 powers: the search for its logarithm ends |
| Gf256.MulIsPolynomialProduct | mantis-1.0-beta/src/lib/fec.c:266-279 | the product by logarithms of a polynomial over one bit, reduced to a byte, and a byte is the product of polynomials modulo x^8+x^4+x^3+x^2+1 |
| Gf256.MulIsShiftAndAdd | mantis-1.0-beta/src/lib/fec.c:266-279 | so for every pair of bytes the product by logarithms is shift and add over the bits of one of them |
| Gf256.MulAssoc | mantis-1.0-beta/src/lib/fec.c:266-279 | the product by logarithms is associative |
| Gf256.MulAdd | mantis-1.0-beta/src/lib/fec.c:266-279 | the product by logarithms distributes over exclusive-or |
| Gf256.InvIsInverse | mantis-1.0-beta/src/lib/fec.c:328-335 | 255 minus the logarithm gives the inverse of every nonzero byte |
| Polynomials.RootBound | mantis-1.0-beta/src/lib/fec.c:409-433 | a polynomial with as many distinct roots as coefficients is zero, so a locator has no more roots than its degree |
| Polynomials.DerivIsQuotient | mantis-1.0-beta/src/lib/fec.c:455-475 | the formal derivative at a root is the quotient by that root, evaluated there |
| Polynomials.SimpleRoot | mantis-1.0-beta/src/lib/fec.c:455-475 | at a root of a locator of that degree the derivative is not zero: the division by it is defined |
| BerlekampMassey.MasseyBound | mantis-1.0-beta/src/lib/fec.c:364-407 | a recurrence that fails at term n forces every recurrence for the terms up to n to be long (Massey) |
| BerlekampMassey.ConvExchange | mantis-1.0-beta/src/lib/fec.c:172-197 | products of series commute and associate on the coefficients that exist |
| BerlekampMassey.StepShape | mantis-1.0-beta/src/lib/fec.c:364-407 | every round keeps the length at most n, k one below the last change, the degree of psi at most the length, and D shifted and bounded |
| BerlekampMassey.StepAnnihilates | mantis-1.0-beta/src/lib/fec.c:364-407 | after round n the discrepancy is zero for every term from the length up to n, and D stays the scaled previous polynomial |
| BerlekampMassey.StepMinimal | mantis-1.0-beta/src/lib/fec.c:364-407 | a round never makes the length greater than that of any recurrence for the terms seen |
| BerlekampMassey.RunAnnihilates | mantis-1.0-beta/src/lib/fec.c:364-407 | after any number of rounds psi annihilates all the syndromes taken in |
| BerlekampMassey.RunMinimal | mantis-1.0-beta/src/lib/fec.c:364-407 | after any number of rounds no recurrence for the syndromes taken in is shorter |
| BerlekampMassey.ShortestRecurrence | mantis-1.0-beta/src/lib/fec.c:364-407 | the algorithm returns a shortest linear recurrence of any sequence over the field |
| ReedSolomon.RecurrenceRoots | mantis-1.0-beta/src/lib/fec.c:409-433 | a short enough recurrence of the syndromes vanishes at the inverse of every error position |
| ReedSolomon.LocatorGenerates | mantis-1.0-beta/src/lib/fec.c:364-407 | the error locator is a recurrence of the syndromes with as many taps as there are errors |
| ReedSolomon.LocatorIsShort | mantis-1.0-beta/src/lib/fec.c:364-407 | what the algorithm returns is no longer than the number of errors |
| ReedSolomon.LocatorHasRoots | mantis-1.0-beta/src/lib/fec.c:409-433 | with at most parity/2 errors every error position is a root |
| ReedSolomon.LocatorLocates | mantis-1.0-beta/src/lib/fec.c:409-433 | with at most parity/2 errors the roots are exactly the error positions |
| ReedSolomon.Forney | mantis-1.0-beta/src/lib/fec.c:455-475 | the evaluator at an error's root is the error value times the derivative there (Forney) |
| FecSpec.GeneratorAtRoot | mantis-1.0-beta/src/lib/fec.c:135-155 | the generator vanishes at the powers 1 to parity of x |
| FecSpec.RegisterAtRoot | mantis-1.0-beta/src/lib/fec.c:281-308 | at each of those powers the shift register holds x^parity times the message |
| FecSpec.EncodedIsCodeword | mantis-1.0-beta/src/lib/fec.c:281-308 | for every message and every number of parity bytes, all syndromes of message and parity are zero |
| FecSpec.SyndromesOfErrors | mantis-1.0-beta/src/lib/fec.c:487-517 | the syndromes of a damaged word are power sums of its errors alone |
| FecSpec.MinimumDistance | mantis-1.0-beta/src/lib/fec.c:281-308 | two different codewords of up to 255 bytes differ in more than parity bytes |
| FecSpec.LocationsAreErrors | mantis-1.0-beta/src/lib/fec.c:409-433 | the positions found are exactly the wrong bytes, and each is a simple root |
| FecSpec.ErrorValues | mantis-1.0-beta/src/lib/fec.c:455-475 | the value computed for a position is the error at that position |
| FecSpec.DecodeFinds | mantis-1.0-beta/src/lib/fec.c:364-433 | for every word within parity/2 of a codeword the locator found describes the errors |
| FecSpec.DecodeCorrects | mantis-1.0-beta/src/lib/fec.c:487-517 | for every word within parity/2 wrong bytes of a codeword, decoding returns that codeword, and no-errors exactly if nothing was wrong |
| FecSpec.RoundTrip | mantis-1.0-beta/src/lib/include/fec.h:74-84 | the promise of one corrected byte for every two parity bytes: any message, any parity/2 changed bytes of message and parity |
| FecSpec.RoundTripApart | mantis-1.0-beta/src/lib/fec.c:435-517 | with the parity in an array of its own the message is restored all the same, and the bytes behind it change exactly where the parity was wrong |
| FecBeyond.CorrectedIsCodeword | mantis-1.0-beta/src/lib/fec.c:435-485 | whatever was received, a word that counts as corrected is a codeword if and only if the locator has as many roots as its degree |
| FecBeyond.AllRootsGiveCodeword | mantis-1.0-beta/src/lib/fec.c:435-485 | with all its roots inside the word, any recurrence of the syndromes leads to a codeword |
| FecBeyond.CodewordHasAllRoots | mantis-1.0-beta/src/lib/fec.c:364-433 | a correction that leads to a codeword used all the roots, for the recurrence is a shortest one |
| FecBeyond.CorrectedToNoCodeword | mantis-1.0-beta/src/lib/fec.c:435-485 | with two parity bytes every word of 255 bytes with only the first syndrome zero counts as corrected and is no codeword |
| FecBeyond.FarIsSuch | mantis-1.0-beta/src/lib/fec.c:487-517 | there is such a word |
| FecOutcome.AnswerExactly | mantis-1.0-beta/src/lib/fec.c:435-517 | for every word there is: no errors if and only if it is a codeword; uncorrectable if and only if it is none and its locator has no root, more than parity of them, or one outside the word; only a corrected word changes |
| FecOutcome.UncorrectableIsFar | mantis-1.0-beta/src/lib/fec.c:435-517 | every codeword differs from an uncorrectable word in more than parity/2 bytes |
| FecOutcome.CorrectionExactly | mantis-1.0-beta/src/lib/fec.c:455-475 | for every word that is corrected: it changes at the roots only, by the evaluator divided by the derivative there, or by one where that is zero |
| FecOutcome.DecodeFar | mantis-1.0-beta/src/lib/fec.c:487-517 | a run of the decoder: eight zero bytes with the parity bytes 1 and 2 are uncorrectable and stay as they are |
| Fec.FillPowers | mantis-1.0-beta/src/lib/fec.c:98-118 | the bit-by-bit loop fills the power table with the powers of x, twice over |
| Fec.FillLogarithms | mantis-1.0-beta/src/lib/fec.c:118-133 | the search fills the logarithm table with the inverse of the power table |
| Fec.Fec.constructor | mantis-1.0-beta/src/lib/fec.c:227-253 | after start-up with up to 8 parity bytes the tables are those of the field, and with at least one the polynomial is the generator |
| Fec.Fec.Gmult | mantis-1.0-beta/src/lib/fec.c:266-279 | table lookup computes the field product |
| Fec.Fec.Ginv | mantis-1.0-beta/src/lib/fec.c:328-335 | table lookup computes the inverse, and one for zero |
| Fec.Fec.MultPolys | mantis-1.0-beta/src/lib/fec.c:172-197 | the in-place product is the convolution of the coefficients |
| Fec.Fec.ComputeGeneratorPoly | mantis-1.0-beta/src/lib/fec.c:135-155 | the generator is the product of z + x^i for i from 1 to parity |
| Fec.Fec.ShiftRegister | mantis-1.0-beta/src/lib/fec.c:289-299 | one step of the register: shift and add the generator times the feedback |
| Fec.Fec.FeedMessage | mantis-1.0-beta/src/lib/fec.c:281-299 | the register after a message is the specification's register |
| Fec.Fec.BuildCodeword | mantis-1.0-beta/src/lib/fec.c:256-263 | the check bytes are stored highest first, wherever they go, and nothing else changes |
| Fec.Fec.Encode | mantis-1.0-beta/src/lib/fec.c:281-308 | the parity goes to its place, behind the message or in an array of its own, and nothing else changes |
| Fec.Fec.ComputeDiscrepancy | mantis-1.0-beta/src/lib/fec.c:345-353 | the discrepancy is the convolution of psi and the syndromes at n |
| Fec.Fec.Round | mantis-1.0-beta/src/lib/fec.c:373-400 | one round of the loop on the shared arrays is one step of the specification |
| Fec.Fec.BerlekampMassey | mantis-1.0-beta/src/lib/fec.c:364-407 | the loop leaves the specification's locator in the array |
| Fec.Fec.ComputeOmega | mantis-1.0-beta/src/lib/fec.c:355-362 | the low coefficients of the product are the evaluator, whatever the syndrome array holds beyond parity |
| Fec.Fec.FindRoots | mantis-1.0-beta/src/lib/fec.c:409-433 | the search over all 255 elements finds the roots in order |
| Fec.Fec.ErrorAtLocation | mantis-1.0-beta/src/lib/fec.c:455-475 | the error value is the evaluator over the derivative |
| Fec.Fec.ComputeSyndromes | mantis-1.0-beta/src/lib/fec.c:487-510 | the loops over the bytes of the message and of the parity, wherever that is, compute all syndromes, and tell whether the two are a codeword |
| Fec.Fec.CorrectErrors | mantis-1.0-beta/src/lib/fec.c:435-485 | correction in place returns the specification's status and word, or leaves the word alone; which of them, and for which words, is FecOutcome.AnswerExactly |
| Fec.Fec.Decode | mantis-1.0-beta/src/lib/fec.c:487-517 | decoding in place returns what the specification returns for message and parity (FecOutcome.AnswerExactly says when), and makes its changes in the message and the bytes behind it, and nowhere else |
| ArithModel.InitialIsValid | mantis-1.0-beta/src/lib/arith-code.c:264-278 | the counts start strictly increasing |
| ArithModel.HalvedBounds | mantis-1.0-beta/src/lib/arith-code.c:280-293 | halving keeps the counts strictly increasing and nearly halves them |
| ArithModel.HalvedIsLeast | mantis-1.0-beta/src/lib/arith-code.c:280-293 | no count falls below its half, and of all counts that stay apart and do not, halving gives the least |
| ArithModel.UpdateKeepsValid | mantis-1.0-beta/src/lib/arith-code.c:280-293 | after any update the counts increase strictly from zero and the scale is between 257 and 16382 |
| ArithModel.UpdateCounts | mantis-1.0-beta/src/lib/arith-code.c:280-293 | for any valid counts, the share of the byte that was coded grows by one and no other changes, until the maximum is reached and they are halved |
| ArithSpec.SettledIsWide | mantis-1.0-beta/src/lib/arith-code.c:173-196 | after normalisation the range is at least 0x4002 |
| ArithSpec.NarrowInRange | mantis-1.0-beta/src/lib/arith-code.c:164-172 | every symbol keeps a nonempty part of the range |
| ArithSpec.EncodeBack | mantis-1.0-beta/src/lib/arith-code.c:336-356 | a stream inside the final interval is inside every interval before it: pending bits included |
| ArithSpec.FlushInside | mantis-1.0-beta/src/lib/arith-code.c:201-209 | the two final bits and the pending ones lead into the final interval, whatever 14 bits follow |
| ArithSpec.CountReaches | mantis-1.0-beta/src/lib/arith-code.c:215-225 | the truncating division of the decoder undoes the one of the encoder |
| ArithSpec.SymbolFollows | mantis-1.0-beta/src/lib/arith-code.c:215-261 | the decoder sees the symbol that was coded, and narrows as the encoder did |
| ArithSpec.SymbolStep | mantis-1.0-beta/src/lib/arith-code.c:215-261 | after every symbol the decoder's low and high are the encoder's and its code is the window of the stream |
| ArithSpec.DecodeFollows | mantis-1.0-beta/src/lib/arith-code.c:358-379 | from any common state, decoding gives the whole rest of the message |
| ArithSpec.RoundTrip | mantis-1.0-beta/src/lib/arith-code.c:336-379 | for every message, decoding its code gives it back, whatever bits follow the code |
| ArithAdaptive.CountsMessage | mantis-1.0-beta/src/lib/arith-code.c:264-293 | after any message of fewer than 16126 bytes the share of each byte value is one plus the number of times it came |
| ArithAdaptive.CodedByCounts | mantis-1.0-beta/src/lib/arith-code.c:163-196 | so every byte narrows the range by its own occurrences and those of smaller bytes, among 257 and the bytes before it |
| ArithAdaptive.NarrowKeeps | mantis-1.0-beta/src/lib/arith-code.c:168-173 | a symbol with n counts of s keeps more than n * n / (s * (n + 1)) of the range, in spite of both roundings |
| ArithAdaptive.CodeIsShort | mantis-1.0-beta/src/lib/arith-code.c:336-356 | the code of a message is at most two bits longer than the logarithm of the product of s * (n + 1) / (n * n) over its bytes |
| BitBuffers.BitWriter.Put | mantis-1.0-beta/src/lib/arith-code.c:111-125 | a bit goes behind the bits written so far, and the next byte is cleared in time |
| BitBuffers.BitReader.Get | mantis-1.0-beta/src/lib/arith-code.c:127-139 | the next bit of the buffer is read, and the place moves on by one |
| ArithCode.NoOverflow | mantis-1.0-beta/src/lib/arith-code.c:164-172 | the product of a range and a count fits 32 bits |
| ArithCode.NarrowBounds | mantis-1.0-beta/src/lib/arith-code.c:164-172 | the bounds computed with 16-bit casts are the mathematical ones |
| ArithCode.RemoveBounds | mantis-1.0-beta/src/lib/arith-code.c:231-241 | the decoder's bounds, with other casts, are the same |
| ArithCode.UpdateModel | mantis-1.0-beta/src/lib/arith-code.c:280-293 | counting in place, with halving at the maximum, is the specification's update, which counts exactly (ArithModel.UpdateCounts) |
| ArithCode.ArithEncoder.Normalise | mantis-1.0-beta/src/lib/arith-code.c:173-196 | the endless loop ends, and emits the specification's bits |
| ArithCode.ArithEncoder.EncodeSymbol | mantis-1.0-beta/src/lib/arith-code.c:164-196 | one symbol on the registers and the bit buffer is one step of the specification |
| ArithCode.ArithEncoder.Flush | mantis-1.0-beta/src/lib/arith-code.c:201-209 | the final bits are those of the specification |
| ArithCode.Encode | mantis-1.0-beta/src/lib/arith-code.c:336-356 | the buffer holds the code of the message and the byte after it, which is as short as the counts make it (ArithAdaptive.CodeIsShort) |
| ArithCode.CurrentCount | mantis-1.0-beta/src/lib/arith-code.c:215-225 | the count of the waiting symbol |
| ArithCode.SymbolToInt | mantis-1.0-beta/src/lib/arith-code.c:324-334 | the search from the top finds the symbol of a count |
| ArithCode.ArithDecoder.DecodeSymbol | mantis-1.0-beta/src/lib/arith-code.c:231-261 | one symbol on the registers is one step of the specification |
| ArithCode.Decode | mantis-1.0-beta/src/lib/arith-code.c:358-379 | the output is the decoded message and nothing behind it changes |
| DelugeNetwork.PacketsMakePage | mantis-1.0-beta/src/mos/net/deluge_app.c:1056-1093 | the 48 packets of a page, the last one two bytes shorter, are the page |
| DelugeNetwork.WriteAgrees | mantis-1.0-beta/src/mos/net/deluge_app.c:1056-1070 | writing the publisher's bytes keeps every page and packet that is already right |
| DelugeSafety.StoreKeeps | mantis-1.0-beta/src/mos/net/deluge_app.c:1045-1075 | a data packet that is taken keeps the node's invariant: a cleared bit marks a packet that is stored |
| DelugeSafety.CheckPasses | mantis-1.0-beta/src/mos/net/deluge_app.c:1077-1094 | a page whose packets have all come passes its checksum |
| DelugeSafety.MoveKeeps | mantis-1.0-beta/src/mos/net/deluge_app.c:222-242 | moving on keeps every page below the new incoming page stored and not needed |
| DelugeSafety.BadPagesKeep | mantis-1.0-beta/src/mos/net/deluge_app.c:244-274 | starting again at the first bad page keeps the invariant |
| DelugeSafety.ProfileKeeps | mantis-1.0-beta/src/mos/net/deluge_app.c:787-864 | adopting a new version keeps the invariant |
| DelugeSafety.SummaryKeeps | mantis-1.0-beta/src/mos/net/deluge_app.c:687-785 | hearing a summary keeps the invariant |
| DelugeSafety.RequestKeeps | mantis-1.0-beta/src/mos/net/deluge_app.c:866-1033 | only a page that is stored becomes the outgoing page, also when requests join a transmission |
| DelugeSafety.DataKeeps | mantis-1.0-beta/src/mos/net/deluge_app.c:1035-1259 | a data packet, in any state, keeps the invariant |
| DelugeSafety.DispatchKeeps | mantis-1.0-beta/src/mos/net/deluge_proto.c:176-186 | entering a state keeps the invariant; transmission starts with the right checksum |
| DelugeSafety.ScanKeeps | mantis-1.0-beta/src/mos/net/deluge_app.c:461-506 | each turn of the transmission loop keeps the invariant |
| DelugeSafety.ScanIsTruthful | mantis-1.0-beta/src/mos/net/deluge_app.c:439-490 | every data packet sent carries the publisher's bytes and, in the last one, the page's checksum |
| DelugeSafety.AlwaysDefined | mantis-1.0-beta/src/mos/net/deluge_app.c:1035-1110 | in a reachable network no handler leaves its tables, whatever arrives |
| DelugeSafety.StepKeeps | mantis-1.0-beta/src/mos/net/deluge_app.c:663-1259 | every step of every node keeps the invariant of the whole network |
| DelugeSafety.RunIsSafe | mantis-1.0-beta/src/mos/net/deluge_app.c:222-1259 | over every run of any number of nodes, with loss, duplication and reordering, the invariant holds |
| DelugeSafety.StoredBytes | mantis-1.0-beta/src/mos/net/deluge_app.c:222-242 | what a node counts as received, below its highPage, is the publisher's image |
| DelugeSafety.CompleteMeansWhole | mantis-1.0-beta/src/mos/net/deluge_app.c:1110-1128 | a node whose highPage is the goal holds the whole image of its version |
| DelugeSafety.AirIsTruthful | mantis-1.0-beta/src/mos/net/deluge_app.c:439-490 | every data packet on the air carries the publisher's bytes, of a page below the goal |
| DelugeSafety.PageCheckNeverFails | mantis-1.0-beta/src/mos/net/deluge_app.c:1093-1166 | on every run the packet that closes a page closes it for good |
| DelugeSafety.ProgramCheckOutcome | mantis-1.0-beta/src/mos/net/deluge_app.c:1110-1156 | at the last page the program checksum passes, and the node is complete, if and only if the release was published with the checksum of its image |
| DelugeSafety.RunAdvances | mantis-1.0-beta/src/mos/net/deluge_app.c:799-822 | over every run versions never fall, and pages of one version are never lost if its release was published with the checksum of its image |
| DelugeProgress.SweepAnswers | mantis-1.0-beta/src/mos/net/deluge_app.c:461-506 | one scan of the transmission loop answers every packet that was asked for |
| DelugeProgress.SweepIsTruthful | mantis-1.0-beta/src/mos/net/deluge_app.c:439-490 | everything one scan sends is the publisher's |
| DelugeProgress.ClosingMoves | mantis-1.0-beta/src/mos/net/deluge_app.c:1056-1140 | a wanted packet clears exactly its bit, and the one that empties the set raises highPage |
| DelugeProgress.PageCompletes | mantis-1.0-beta/src/mos/net/deluge_app.c:1035-1140 | once every missing packet of the page has come, in any order, repeated and with any others in between, the node has more pages than before |
| DelugeProgress.PageTransfer | mantis-1.0-beta/src/mos/net/deluge_app.c:392-512 | a node that asks a neighbour with more pages of its version, and hears one scan of the answer in any order, ends with more pages |
| DelugeRules.RequestJoins | mantis-1.0-beta/src/mos/net/deluge_app.c:461-506 | over every run, at any turn of the transmission loop but the last: every packet that a request for the page being sent names, and every one wanted before, is sent before the loop ends |
| DelugeRules.LateRequestIsMissed | mantis-1.0-beta/src/mos/net/deluge_app.c:461-511 | at the last turn, with an empty snapshot, a request is taken down and the loop ends without sending anything for it |
| DelugeRules.JoinsInWord | mantis-1.0-beta/src/mos/net/deluge_app.c:465-492 | a packet that is sent renews the 16 bits around it: what joined there, further up the page, is sent by the same scan |
| DelugeRules.OverhearingSuppresses | mantis-1.0-beta/src/mos/net/deluge_app.c:725-730 | over every run a maintaining node that overhears a request to another asks for nothing until it has begun two rounds, and after an overheard packet until it has begun one |
| DelugeRules.AdvertisesExactly | mantis-1.0-beta/src/mos/net/deluge_app.c:336-390 | over every run: in the middle of a round a node sends its profile or its summary if and only if it has heard none of that kind since the round began, or a multiple of 256 |
| DelugeRules.GivesUpExactly | mantis-1.0-beta/src/mos/net/deluge_app.c:392-437 | over every run a node that has to ask does so twice and the third time gives up and begins a round, and so on in threes |
| DelugeRules.DifferenceBeginsRound | mantis-1.0-beta/src/mos/net/deluge_app.c:745-758 | a summary, request or packet that shows a difference makes a maintaining node begin a round at once; a summary that agrees changes nothing |
| DelugeRules.FollowsExactly | mantis-1.0-beta/src/mos/net/deluge_app.c:703-731 | a maintaining node comes to ask a neighbour if and only if that has more pages of its version over a good link, and nothing has been overheard |
| DelugeRules.DistanceIsIdle | mantis-1.0-beta/src/mos/net/deluge_app.c:703-752 | every summary of the home instance says distance zero, so the distance that a node remembers changes no state |
| DelugeRules.OthersKeepWaiting | mantis-1.0-beta/src/mos/net/deluge_app.c:1000-1003 | requests and packets of others keep a receiving node waiting to ask again, even if it had just given up |
| DelugeRules.GainBeginsRound | mantis-1.0-beta/src/mos/net/deluge_app.c:1226-1237 | a node that gains pages from a packet begins a round at once |
| DelugeRules.ChecksumCoversExactly | mantis-1.0-beta/src/mos/net/deluge_app.c:450-453 | the checksum of a page is that of its bytes if and only if it is not the last page, filled to its end: then it is that of no bytes |
| DelugeRules.RestartsExactly | mantis-1.0-beta/src/mos/net/deluge_app.c:1110-1156 | after a program checksum that fails exactly the pages whose checksum fails are needed again, and reception resumes at the first of them, or at page 0 |
| DelugeCompletion.RunIsGood | mantis-1.0-beta/src/mos/net/deluge_app.c:1089-1092 | over every run each node misses some packet of its page, and no node is left without a state to go to |
| DelugeCompletion.SweepEnds | mantis-1.0-beta/src/mos/net/deluge_app.c:461-506 | a scan comes to its end, has sent all it had to, and leaves nothing wanted if nothing new was asked for |
| DelugeCompletion.ComesToRest | mantis-1.0-beta/src/mos/net/deluge_app.c:392-512 | from any reachable state, in the middle of asking or sending, a node can be brought to the beginning of a round with what it has |
| DelugeCompletion.Advertises | mantis-1.0-beta/src/mos/net/deluge_app.c:307-390 | in one round a node advertises its profile if a neighbour was found to be obsolete, and its summary otherwise |
| DelugeCompletion.Asks | mantis-1.0-beta/src/mos/net/deluge_app.c:704-733 | from any reachable network a node can hear of a neighbour with more pages and ask it for its page |
| DelugeCompletion.Gains | mantis-1.0-beta/src/mos/net/deluge_app.c:866-906 | and can gain a page from it |
| DelugeCompletion.Adopts | mantis-1.0-beta/src/mos/net/deluge_app.c:787-864 | a node with an older version can be made to take over a newer one |
| DelugeCompletion.CatchesUp | mantis-1.0-beta/src/mos/net/deluge_app.c:787-1140 | a node can be brought to the whole release of any node that is not older, if the release is honest |
| DelugeCompletion.AllCatchUp | mantis-1.0-beta/src/mos/net/deluge_app.c:787-1140 | one node after the other can be, while those that have the release keep it |
| DelugeCompletion.RunHasNewest | mantis-1.0-beta/src/mos/net/deluge_app.c:799-822 | over every run the node that started with the newest release has all of it, and nothing newer is sent or adopted |
| DelugeCompletion.AlwaysCanComplete | mantis-1.0-beta/src/mos/net/deluge_app.c:222-1259 | from the end of every run, whatever was lost, repeated or reordered, a network can be reached in which all nodes at once have the whole image of the newest release, if that was published with its checksum |
| DelugeCompletion.NeverCompletesUnlessHonest | mantis-1.0-beta/src/mos/net/deluge_app.c:1110-1156 | if it was not, no node that took it over is ever complete, in any run |
| DelugeApp.App.constructor | mantis-1.0-beta/src/mos/net/deluge_app.c:1269-1342 | the home instance starts with its control block and image, receiving and sending nothing |
| DelugeApp.App.MoveToNextPage | mantis-1.0-beta/src/mos/net/deluge_app.c:222-242 | the loop finds the next page needed or the goal, whatever bit is read behind the table |
| DelugeApp.App.FindBadPages | mantis-1.0-beta/src/mos/net/deluge_app.c:244-274 | the loop marks exactly the pages that fail, and starts at the first or at 0 |
| DelugeApp.App.HandleSummary | mantis-1.0-beta/src/mos/net/deluge_app.c:687-785 | the handler is the specification's step |
| DelugeApp.App.HandleProfile | mantis-1.0-beta/src/mos/net/deluge_app.c:787-864 | the handler is the specification's step |
| DelugeApp.App.HandleRequest | mantis-1.0-beta/src/mos/net/deluge_app.c:866-1033 | the handler is the specification's step; that a request joins a transmission is DelugeRules.RequestJoins |
| DelugeApp.App.StorePacket | mantis-1.0-beta/src/mos/net/deluge_app.c:1056-1075 | the packet, its checksum and its bit go where the specification says |
| DelugeApp.App.ClosePage | mantis-1.0-beta/src/mos/net/deluge_app.c:1077-1166 | the two checksums decide as the specification says |
| DelugeApp.App.HandleData | mantis-1.0-beta/src/mos/net/deluge_app.c:1035-1259 | the handler is the specification's step |
| DelugeApp.App.DoMaintain1 | mantis-1.0-beta/src/mos/net/deluge_app.c:307-334 | the beginning of a round |
| DelugeApp.App.DoMaintain2 | mantis-1.0-beta/src/mos/net/deluge_app.c:336-390 | what is advertised, and when |
| DelugeApp.App.DoRx | mantis-1.0-beta/src/mos/net/deluge_app.c:392-437 | what is asked for, and when it is given up |
| DelugeApp.App.Dispatch | mantis-1.0-beta/src/mos/net/deluge_proto.c:176-186 | the state is taken and acted on |
| DelugeApp.App.Scan | mantis-1.0-beta/src/mos/net/deluge_app.c:467-506 | one turn of the transmission loop sends the packet, clears its bit and takes over the word around it |
| TreeShape.PlugLinked | mantis-1.0-beta/src/lib/tree.c:82-128 | the pointers of a tree are those of a subtree and of the path to it |
| TreeShape.PlugKeys | mantis-1.0-beta/src/lib/tree.c:82-128 | the keys in order are those before the path, of the subtree, and after the path |
| TreeShape.FitsBelow | mantis-1.0-beta/src/lib/tree.c:130-142 | a search that turns at a node by its key cannot miss the key |
| TreeShape.Grown | mantis-1.0-beta/src/lib/tree.c:193-233 | a new key at the end of a search keeps the order and adds exactly itself |
| Tree.TurnedAlike | mantis-1.0-beta/src/lib/tree.c:82-128 | the two shapes around a rotation have the same keys in the same order |
| Tree.SuccessorKeys | mantis-1.0-beta/src/lib/tree.c:316-354 | the successor in the place of the deleted node leaves all other keys in order |
| Tree.OneChildLess | mantis-1.0-beta/src/lib/tree.c:324-338 | a node with at most one child, left out, takes only its key with it |
| Tree.Tree.RightRotate | mantis-1.0-beta/src/lib/tree.c:82-104 | rotation in place gives exactly the rotated shape with consistent left, right and parent pointers, and the same keys |
| Tree.Tree.LeftRotate | mantis-1.0-beta/src/lib/tree.c:106-128 | the same to the left |
| Tree.Tree.RightRotateNode | mantis-1.0-beta/src/lib/tree.c:66-72 | the tree stays whole if and only if it was not the root that turned, because the root pointer is not updated |
| Tree.Tree.LeftRotateNode | mantis-1.0-beta/src/lib/tree.c:74-80 | the same to the left |
| Tree.RotatedRootIsLost | mantis-1.0-beta/src/lib/tree.c:66-72 | a tree of two keys that rotating the root breaks |
| Tree.Tree.Zig | mantis-1.0-beta/src/lib/tree.c:388-394 | the single rotation at the top |
| Tree.Tree.ZigFromLeft | mantis-1.0-beta/src/lib/tree.c:395-404 | both double rotations for a left child bring it up two steps, the grandparent turning first on a straight path |
| Tree.Tree.ZigFromRight | mantis-1.0-beta/src/lib/tree.c:405-414 | both double rotations for a right child bring it up two steps, the grandparent turning first on a straight path |
| Tree.Tree.Splay | mantis-1.0-beta/src/lib/tree.c:385-418 | splaying ends, brings the node to the root, and keeps nodes, keys, order and all pointers; every node on the way comes to half its depth but for two, and the access is paid for by the potential |
| Tree.Tree.SplayNode | mantis-1.0-beta/src/lib/tree.c:376-383 | splaying a key brings it to the root if it is there, with the way halved, and changes nothing otherwise |
| TreeSplay.SplayHalvesWay | mantis-1.0-beta/src/lib/tree.c:385-418 | every node that stood at depth d on the way to the node splayed comes to stand at depth (d + 1) / 2 + 2 at most |
| TreeSplay.AccessLemma | mantis-1.0-beta/src/lib/tree.c:385-418 | the access lemma: the turns of the loop and the growth of the potential are at most three times the rank that the node gains, and one |
| TreeSplay.SplayIsCheap | mantis-1.0-beta/src/lib/tree.c:385-418 | so one access takes three logarithms of the size and one, beyond what the potential pays |
| TreeSplay.PotentialBound | mantis-1.0-beta/src/lib/tree.c:385-418 | the potential of a tree of n nodes is at most n logarithms of n |
| Tree.Accesses | mantis-1.0-beta/src/lib/tree.c:376-418 | any sequence of m accesses to a tree of n nodes takes at most m * (3 * log n + 1) + n * log n turns of the splaying loop |
| Tree.Tree.Find | mantis-1.0-beta/src/lib/tree.c:361-374 | a node is found if and only if the key is in the tree |
| Tree.Tree.Insert | mantis-1.0-beta/src/lib/tree.c:193-233 | exactly the new key is added, in order, or the status says why not |
| Tree.Tree.Successor | mantis-1.0-beta/src/lib/tree.c:320-322 | the leftmost node to the right |
| Tree.Tree.Unlink | mantis-1.0-beta/src/lib/tree.c:324-338 | a node with at most one child leaves the tree and the pointers close over it |
| Tree.Tree.Substitute | mantis-1.0-beta/src/lib/tree.c:341-353 | the successor takes the place of the deleted node |
| Tree.Tree.Delete | mantis-1.0-beta/src/lib/tree.c:300-359 | exactly the given key is removed, in every case, with order and pointers kept |
| Flash.Driver.constructor | mantis-1.0-beta/src/mos/dev/atmel-flash.c:276-281 | the driver starts unbuffered, clean, and showing the memory |
| Flash.Driver.SetMode | mantis-1.0-beta/src/mos/dev/atmel-flash.c:81-114 | a mode change shows the same bytes; an unknown mode breaks the driver if and only if the buffer was dirty, and the way back to the buffered mode then drops the buffer |
| Flash.UnknownModeLosesByte | mantis-1.0-beta/src/mos/dev/atmel-flash.c:108-110 | after an unknown mode a byte written over one that is still in the buffer is lost: the old byte is read |
| Flash.Driver.WriteBack | mantis-1.0-beta/src/mos/dev/atmel-flash.c:128-137 | writing back changes nothing that can be read |
| Flash.Driver.Read | mantis-1.0-beta/src/mos/dev/atmel-flash.c:153-175 | reading gives the flat memory's bytes, in broken states too, if and only if the 16-bit sum does not miss the dirty page by wrapping, or the memory holds the same bytes |
| Flash.LongReadMissesByte | mantis-1.0-beta/src/mos/dev/atmel-flash.c:153-175 | a run: a byte that is still in the buffer is not found by a read long enough for the sum to wrap |
| Flash.Driver.Turn | mantis-1.0-beta/src/mos/dev/atmel-flash.c:199-219 | changing the page in the buffer keeps what can be read, with the page itself in the buffer |
| Flash.Driver.WriteBuffered | mantis-1.0-beta/src/mos/dev/atmel-flash.c:197-222 | a buffered write changes exactly its bytes, of what a reader sees or, on the page that is kept, of what the buffer holds |
| Flash.Driver.WriteThrough | mantis-1.0-beta/src/mos/dev/atmel-flash.c:223-235 | an unbuffered write changes exactly its bytes of the chip's memory, and works in the default buffer |
| Flash.Driver.Write | mantis-1.0-beta/src/mos/dev/atmel-flash.c:179-246 | a write over any number of pages changes exactly its range of the flat memory, or, in a broken state, of what it goes on from; if the 16-bit sum wraps, it changes the first page and nothing else; it returns zero |
| Flash.PutExactly | mantis-1.0-beta/src/mos/dev/atmel-flash.c:188-241 | a write does what it should if and only if the sum does not wrap, or the chip makes the right bytes of what spills over its buffer and the rest is there already |
| Flash.LongWriteLeavesByte | mantis-1.0-beta/src/mos/dev/atmel-flash.c:188-241 | a run: a byte in the range of a write long enough for the sum to wrap is not written |
| Flash.Driver.Compare | mantis-1.0-beta/src/mos/dev/atmel-flash.c:289-337 | the result says whether the range equals the data, or, if the 16-bit sum wraps, whether the first page equals what spilled over; a page kept in the default buffer survives if and only if it is what is left there |
| Flash.SurvivesExactly | mantis-1.0-beta/src/mos/dev/atmel-flash.c:303-333 | for equal data that is the last page of the range, and within one page it survives if and only if the data are equal |
| Flash.ComparisonLosesByte | mantis-1.0-beta/src/mos/dev/atmel-flash.c:289-337 | after a comparison of another page and a write next to it a byte that was not written reads differently |
| Flash.Driver.CrcOf | mantis-1.0-beta/src/mos/dev/atmel-flash.c:341-362 | the checksum is that of the flat memory's bytes |
| Flash.Chip.CrcMemory | mantis-1.0-beta/src/mos/dev/atmel-flash.c:503-564 | the copy of the loop in the driver computes the same checksum |
| Flash.WrittenPage | mantis-1.0-beta/src/mos/dev/atmel-flash.c:209-222 | a page written in part over what it held, or whole over anything, is the page with the new bytes |
| Rc5.FastIsRoll | mantis-1.0-beta/src/lib/include/CryptoPrimitives.h:196-212 | rotation by whole bytes and a few single bits is rotation, for every amount up to 32 |
| Rc5.RotatedBack | mantis-1.0-beta/src/lib/include/CryptoPrimitives.h:212 | rotation right by n, as left by 32 - n, undoes rotation left |
| Rc5.CipherInverse | mantis-1.0-beta/src/lib/rc5.c:112-162 | encryption and decryption undo each other on every 64-bit block and every key table |
| Rc5Equations.XorOfWords | mantis-1.0-beta/src/lib/rc5.c:112-131 | every bit of the exclusive-or of two words is set if and only if exactly one of theirs is |
| Rc5Equations.RotatesLeft | mantis-1.0-beta/src/lib/include/CryptoPrimitives.h:196-212 | rotation by n takes bit k to bit (k + n) mod 32, for every k and n |
| Rc5Equations.DefiningEquations | mantis-1.0-beta/src/lib/rc5.c:112-131 | the words after the two sums and each of the 12 rounds satisfy the equations of RC5, bit by bit and as sums modulo 2^32 |
| Rc5Equations.EncryptedExactly | mantis-1.0-beta/src/lib/rc5.c:112-131 | a pair is the encrypted block if and only if there are words that satisfy the equations and lead to it |
| Rc5.Encrypt | mantis-1.0-beta/src/lib/rc5.c:112-131 | the loop computes the twelve rounds, whose equations are Rc5Equations.EncryptedExactly |
| Rc5.Decrypt | mantis-1.0-beta/src/lib/rc5.c:133-162 | the loop undoes the twelve rounds |
| Rc5Modes.BlockInverse | mantis-1.0-beta/src/lib/rc5.c:112-162 | the same on blocks of bytes |
| Rc5Equations.BlockBits | mantis-1.0-beta/src/lib/rc5.c:164-203 | bit k of byte j of a block is bit 8 * (j mod 4) + k of its first or second word |
| Rc5Modes.DecryptEncrypt | mantis-1.0-beta/src/lib/rc5.c:164-256 | for every text of at least 8 bytes, initial vector and code, decryption gives the text back, with or without a short last block |
| Rc5Equations.XorOfBytes | mantis-1.0-beta/src/lib/rc5.c:164-256 | every bit of the exclusive-or of two bytes is set if and only if exactly one of theirs is |
| Rc5Equations.Chained | mantis-1.0-beta/src/lib/rc5.c:164-203 | every block of the ciphertext is the code of the block of text mixed with the ciphertext before it, or with the initial vector |
| Rc5Equations.ChainedShort | mantis-1.0-beta/src/lib/rc5.c:164-203 | with a short last block the last two blocks are chained, change places, and the one that comes last is cut |
| Rc5Modes.FinalInCiphertext | mantis-1.0-beta/src/lib/rc5.c:258-294 | the authentication block is block size/8 - 1 of the ciphertext |
| Rc5Modes.CipherIsInverse | mantis-1.0-beta/src/lib/rc5.c:112-162 | the halves of the code of every key undo each other |
| Rc5Buffers.BlockEncrypt | mantis-1.0-beta/src/lib/rc5.c:164-203 | the buffer holds the chained ciphertext, also when it is encrypted in place |
| Rc5Buffers.BlockDecrypt | mantis-1.0-beta/src/lib/rc5.c:205-256 | the buffer holds the plaintext, also when it is decrypted in place |
| Rc5Buffers.BlockMac | mantis-1.0-beta/src/lib/rc5.c:258-294 | the code is a prefix of the last chained block if it fits in a block, and is not written otherwise |
| Crc.ChecksumIsRemainder | mantis-1.0-beta/src/lib/crc.c:46-96 | the checksum is the one remainder of the initial value, the message and 16 zeros, divided by x^16+x^12+x^5+1 |
| Crc.GeneratorTerms | mantis-1.0-beta/src/lib/crc.c:41-44 | the generator has the terms x^16, x^12, x^5 and 1, and no others |
| Crc.RunLinear | mantis-1.0-beta/src/lib/crc.c:61-81 | the register is linear in its start and in the bits fed |
| Crc.ChecksumDifference | mantis-1.0-beta/src/lib/crc.c:46-96 | the difference of two checksums depends on the difference of the messages only |
| Crc.BurstDetected | mantis-1.0-beta/src/lib/crc.c:46-96 | two different messages of one length that differ within 16 consecutive bits have different checksums |
| Crc.AppendedChecksum | mantis-1.0-beta/src/lib/crc.c:46-96 | a message followed by its checksum, high byte first, has checksum zero |
| Crc.Compute | mantis-1.0-beta/src/lib/crc.c:46-96 | the nested loops compute the checksum |
| Uart.StaysInBuffer | mantis-1.0-beta/src/mos/com/uart.c:619-634 | the index stays below the announced size if and only if no packet announces the size zero |
| Uart.BehindExactly | mantis-1.0-beta/src/mos/com/uart.c:602-634 | after any bytes, the next one is written behind the 64 of the buffer if and only if a size of zero was taken 64 to 255 bytes ago |
| Uart.ZeroSizeTaken | mantis-1.0-beta/src/mos/com/uart.c:602-634 | after a header with the size zero the first 64 bytes stay in the buffer, those up to the 256th do not, and with that one an empty packet is delivered |
| Uart.HeaderTaken | mantis-1.0-beta/src/mos/com/uart.c:602-626 | a header is taken if and only if the count of preamble bytes is zero; otherwise it is missed |
| Uart.FrameDelivered | mantis-1.0-beta/src/mos/com/uart.c:602-634 | a receiver in step delivers a packet, and is in step again |
| Uart.StreamDelivered | mantis-1.0-beta/src/mos/com/uart.c:602-655 | any sequence of packets of 1 to 64 bytes, preamble bytes included, is delivered exactly and in order |
| Uart.StrayPreamble | mantis-1.0-beta/src/mos/com/uart.c:602-626 | one stray preamble byte before a frame makes the receiver miss its header |
| Uart.OversizeMissesNext | mantis-1.0-beta/src/mos/com/uart.c:602-626 | a size above 64 leaves the count of preamble bytes at two: the header right behind it is missed, and any other byte in between restores the receiver |
| Uart.Transmitter.Interrupt | mantis-1.0-beta/src/mos/com/uart.c:636-655 | each interrupt puts the next byte of the frame on the line, or reports that it is done |
| Uart.Transmitter.Send | mantis-1.0-beta/src/mos/com/uart.c:430-443 | sending puts exactly the frame on the line |
| Uart.Receiver.Interrupt | mantis-1.0-beta/src/mos/com/uart.c:602-634 | the handler is the specification's step, for every byte that has its place in the buffer |
| Com.Pool.constructor | mantis-1.0-beta/src/mos/com/com.c:97-141 | all buffers start on the free list, each once, and nobody waits |
| Com.Pool.GetFreeBuf | mantis-1.0-beta/src/mos/com/com.c:537-548 | the first free buffer goes out, and every other stays where it is |
| Com.Pool.FreeBuf | mantis-1.0-beta/src/mos/com/com.c:440-450 | a buffer that is out comes back to the free list |
| Com.Pool.SaveFullBuf | mantis-1.0-beta/src/mos/com/com.c:515-531 | a full buffer goes to the end of its interface's queue, and every other stays where it is |
| Com.Pool.SwapBufs | mantis-1.0-beta/src/mos/com/com.c:469-507 | a full buffer is queued, its receiver woken and counted, and a free one handed out; no buffer is lost or doubled |
| Com.Pool.RecvNoblock | mantis-1.0-beta/src/mos/com/com.c:229-250 | the oldest buffer of the queue; a woken receiver is left with nothing if and only if as many were woken as there were buffers |
| Com.Pool.RecvBegin | mantis-1.0-beta/src/mos/com/com.c:252-270 | the oldest buffer, a refusal, or a suspension exactly if the queue is empty; a woken receiver is robbed if and only if as many were woken as there were buffers |
| Com.Pool.RecvResume | mantis-1.0-beta/src/mos/com/com.c:268-324 | each of the receivers woken and not yet run finds the oldest buffer, unless the queue has been emptied |
| Com.TakingServes | mantis-1.0-beta/src/mos/com/com.c:229-324 | taking a buffer robs a woken receiver if and only if as many were woken as there are buffers; a woken receiver that takes its own robs nobody |
| Com.RobbedReceiver | mantis-1.0-beta/src/mos/com/com.c:252-324 | a run from the start in which a woken receiver finds its queue empty, robbed by a second receiver or by one that does not block |
| Com.RobbedByWoken | mantis-1.0-beta/src/mos/com/com.c:252-324 | a run in which one receiver robs the first woken one, and that one, on running, takes the buffer that a third was woken for |
| Ctp.EnqueueAppends | mantis-1.0-beta/src/mos/net/net_ctp.c:497-503 | the ring is a queue: a packet goes to its end |
| Ctp.DequeueRemoves | mantis-1.0-beta/src/mos/net/net_ctp.c:505-516 | the ring is a queue: the packet at its head goes, and its slot is emptied |
| Ctp.BeaconFound | mantis-1.0-beta/src/mos/net/net_ctp.c:463-475 | the search of the slots finds the beacon if and only if it is queued |
| Ctp.OnePlace | mantis-1.0-beta/src/mos/net/net_ctp.c:125-163 | queue, pool and hands, counted together, hold every forwarding packet once, and the queue at most one beacon |
| Ctp.EnqueueKeeps | mantis-1.0-beta/src/mos/net/net_ctp.c:586-630 | there is always room for a packet that a thread holds |
| Ctp.SendKeeps | mantis-1.0-beta/src/mos/net/net_ctp.c:446-461 | a packet that cannot be sent goes back to the queue, one that can is in the thread's hand |
| Ctp.FreeKeeps | mantis-1.0-beta/src/mos/net/net_ctp.c:530-539 | the error of a full pool never occurs |
| Ctp.StepKeeps | mantis-1.0-beta/src/mos/net/net_ctp.c:125-163 | every step of every thread conserves the packets |
| Ctp.RunConserves | mantis-1.0-beta/src/mos/net/net_ctp.c:446-630 | over every interleaving the packets are conserved |
| Ctp.StepDoes | mantis-1.0-beta/src/mos/net/net_ctp.c:446-630 | the ring and the array behave as a queue and a stack in every step: who enters, who leaves, in which order, and what a thread holds |
| CtpQueues.PacketQueues.EnqueuePacket | mantis-1.0-beta/src/mos/net/net_ctp.c:497-503 | the code is the specification's step |
| CtpQueues.PacketQueues.DequeuePacket | mantis-1.0-beta/src/mos/net/net_ctp.c:505-516 | the first packet queued, or nothing |
| CtpQueues.PacketQueues.AllocatePacket | mantis-1.0-beta/src/mos/net/net_ctp.c:518-528 | the top of the pool, or nothing |
| CtpQueues.PacketQueues.FreePacket | mantis-1.0-beta/src/mos/net/net_ctp.c:530-539 | the code is the specification's step |
| CtpQueues.PacketQueues.EnqueueBeacon | mantis-1.0-beta/src/mos/net/net_ctp.c:463-494 | the beacon is queued unless it is queued already |
| SimpleFs.Table.FindFile | mantis-1.0-beta/src/mos/dev/simple_fs.c:74-87 | the live file of that name, or -1 if and only if there is none |
| SimpleFs.Table.FirstPass | mantis-1.0-beta/src/mos/dev/simple_fs.c:92-109 | the first pass ends and finds the first free place from start on that lies within the flash, or nothing if and only if there is none |
| SimpleFs.Table.SecondPass | mantis-1.0-beta/src/mos/dev/simple_fs.c:111-129 | the second pass goes on for ever if and only if it comes to an edge where the first file in the way ends; otherwise it finds the first edge below start that no file touches, or nothing if and only if there is none |
| SimpleFs.Table.FindFreePages | mantis-1.0-beta/src/mos/dev/simple_fs.c:90-130 | both passes together, in all cases |
| SimpleFs.TrapEndsOnPage | mantis-1.0-beta/src/mos/dev/simple_fs.c:111-129 | the search goes on for ever only if a live file ends on the edge of a page below start |
| SimpleFs.FirstFileTraps | mantis-1.0-beta/src/mos/dev/simple_fs.c:111-129 | it does whenever the first live file of the table does so and starts within the length that is wanted |
| SimpleFs.PastTheEnd | mantis-1.0-beta/src/mos/dev/simple_fs.c:111-129 | the place found runs past the end of the flash if and only if the first pass finds none and the first edge no file touches is too near the end |
| SimpleFs.FullFlashKeepsLock | mantis-1.0-beta/src/mos/dev/simple_fs.c:158-162 | a run: one file fills the flash, the next has no room, and the lock is kept |
| SimpleFs.FullFlashStopsSearch | mantis-1.0-beta/src/mos/dev/simple_fs.c:111-129 | a run: two files fill the flash, and the search for the next goes on for ever |
| SimpleFs.EndIsPassed | mantis-1.0-beta/src/mos/dev/simple_fs.c:111-129 | a run: a file shorter than the flash is put past its end |
| SimpleFs.Settled | mantis-1.0-beta/src/mos/dev/simple_fs.c:164-182 | a file settled in a free place under a free name keeps the table sound |
| SimpleFs.Table.Create | mantis-1.0-beta/src/mos/dev/simple_fs.c:132-187 | live files stay disjoint and their names unique; the file goes where the search finds it; the lock is kept if and only if there is no place, or none the second pass lives to see |
| SimpleFs.Table.Rename | mantis-1.0-beta/src/mos/dev/simple_fs.c:203-231 | exactly the files concerned change; renaming a file to its own name removes it |
| SimpleFs.Table.Format | mantis-1.0-beta/src/mos/dev/simple_fs.c:325-335 | no file is left, and nothing else of the entries changes |

## Left out

- Fec.Fec.ShiftRegister: `ensures` describes one step only; the meaning of the whole register is FecSpec.RegisterAtRoot.
- Fec.Fec.Encode: no parity bytes at all, for which the register is read before its beginning, and more than 8, which the header allows and the arrays do not hold, are excluded.
- Fec.Fec.constructor: more than 8 parity bytes are excluded for the same reason.
- Uart.Receiver.Interrupt: a byte that goes behind the buffer is excluded, because what lies there is not part of this model; when there is one, and for how long, is Uart.BehindExactly.
- Com.Pool.RecvResume: the error-correcting and checksumming variants of receiving, which take buffers off the queue again, are not modelled.
- Deluge's forwarding instances, restarts, statistics, shell and timing: only the home instance is modelled, and handlers run to their end between the steps of the transmission loop.
- Deluge's progress in time: that an update is always still possible is proved, not that it happens, which the medium can prevent.
- Loss of power in the middle of a flash write, and the busy flag of the chip.
- Key set-up of RC5: everything is proved for every key table.
- `delete_subtree`, which reads nodes after freeing them, and the counting and printing functions of the tree.
- Memory exhaustion when the buffer pool is created; the timed receive and select functions.
- The routing table of the collection tree, and radio, SPI, I2C and sensor drivers, which work on registers.
- The network's other protocols, the graphical tools, the gateway and the build scripts.
