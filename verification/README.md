# Verified models of address codecs, check codes and block scanners

The repository is the blockchain layer of an exchange. It reads and writes addresses and invoices of many
chains, checks their check codes, and scans new blocks for deposits. This project models the part of it that
computes something hard and proves what that part is for:

- **Bech32 and Bech32m** (`Polymod`, `Bech32Checksum`, `Bech32Codec`, `Bech32Vectors`): the checksum register is linear over
  GF(2) and its step is injective on 30 bits. From this follow, at every length, that exactly one checksum
  verifies and that no error within six neighbouring symbols passes.
- **Regrouping bits** (`ConvertBits`): the masked accumulator refines one unbounded number cut into groups;
  padding and unpadding undo each other, with the exact condition.
- **Segwit and Harmony addresses** (`SegwitAddress`, `Harmony`): writing and reading undo each other, with the
  exact conditions under which they do.
- **Base58 and Base43** (`BaseCodec`), **CryptoNote Base58** (`CryptoNote`) and **SS58** (`Ss58`): round trips
  and injectivity, with the inputs on which the code fails them.
- **Lightning invoices**, BOLT #11 (`LnAmount`, `LnFields`, `LnInvoice`, `LnRoundTrip`, `LnReader`, `LnCodec`): what the
  writer writes, the reader reads, for every list of tags; amounts, tagged fields, dates and descriptions
  (`Utf8`) each have their own law; and whatever text is accepted, its key signs its message.
- **CRC-16/XMODEM** (`Crc16`, `TonAddress`): the table-driven CRC is the bitwise one, the table is right, and
  the TON check accepts exactly the messages whose CRC is zero.
- **The Hedera checksum**, HIP-15 (`Hedera`): every wrong character, every exchange of neighbours and every
  small change of length is detected, at every length.
- **Block scanning** (`BlockAggregation`, `BlockScanner`, `BchScanner`): over every sequence of runs with
  failures of any kind, with losses of the stored height, no height below the stored one was skipped; the index
  conserves value.

`Positional`, `BitXor`, `LinearRegister`, `Alphabet`, `HexText` and `Wrappers` hold the theory that these
share: positional notation, exclusive or on natural numbers, linear shift registers and alphabets.

## How the source is modelled

- Loops that update variables are methods with invariants, proved equal to a function on the inputs; objects
  that are updated in place are classes (`LnFields.Remaining`, `LnCodec.LnAddr`, `BlockScanner.Scanner`,
  `BchScanner.Scanner`), and the CryptoNote buffer is an array. The laws are proved about the functions.
- Shifts, masks and ors are written as products, remainders and sums; exclusive or is defined by recursion on
  the bits. Register widths (30 and 16 bits) are types.
- Exceptions and `None` results are values of `Result` and `Option`.
- Explorers, SHA-256, BLAKE2b, signatures and the Base58 library are functions that a model is given. What is
  assumed of them is written in `LnInvoice.GoodCrypto` (a signature has 65 bytes with a header from 27 to 30,
  recovery gives the signer's key, verification accepts it, a hash has 32 bytes) and `Ss58.GoodLibrary`
  (decoding undoes encoding, no encoded text starts with `0x`, a hash has 64 bytes).
- An invoice amount is an exact number of bitcoin, a Hedera checksum is divided in exact reals.

## Where the code differs from its own documentation

- `int_to_data5` promises to pad on the left to a given width (app-blockchain/lnaddr.py:256-258), but its padding
  count is never positive. A date before 2^30 is written short and an invoice with it does not read back.
- `base_encode` and `base_decode` write a digit for the number zero in addition to the leading zeros
  (app-blockchain/lnaddr.py:82, app-blockchain/lnaddr.py:119). Input that is all zeros, and empty input, comes
  back longer by two digits.
- The check that the checksum fits the witness version is commented out
  (app-blockchain/segwit_address.py:149-150): an address with the wrong one is read, and written again as
  another text.
- The Harmony reader checks neither the prefix nor the kind of checksum (app-blockchain/segwit_address.py:163-166).
- The CryptoNote bound lets the value 2^64 pass (app-blockchain/monero_address_validation.py:45), so that
  `jpXCZedGfVR` and `11111111111` decode to the same eight bytes.
- SS58 addresses with a two-byte format and a payload of 2, 4 or 8 bytes are written with one checksum byte
  and read with two (app-blockchain/ss58.py:37-40, app-blockchain/ss58.py:83-85).
- The block scanner stores one block less than it read (app-blockchain/api/general_block_api.py:49-51): a run
  without errors reads its last block again the next time, and never stores the head.
- A description is cut after 639 bytes, even inside a character (app-blockchain/lnaddr.py:348), and the reader then
  raises on it (app-blockchain/lnaddr.py:622).
- An amount of zero, a `9` tag of zero, a fallback of `None` and an empty route are not reported by the reader;
  a `t` tag is read as a list of hops (app-blockchain/lnaddr.py:295-298, app-blockchain/lnaddr.py:344-361,
  app-blockchain/lnaddr.py:594-611).

## Model

| member | source | states |
|---|---|---|
| `Polymod.ComputePolymod` | app-blockchain/segwit_address.py:24-33 | the nested loops compute the run of a shift register that starts at 1 |
| `Polymod.BechLinear` | app-blockchain/segwit_address.py:24-33 | the register step is linear over GF(2): the step of a sum is the sum of the steps |
| `Polymod.BechInjective` | app-blockchain/segwit_address.py:26-32 | the register step on a zero input is injective on 30 bits |
| `Polymod.AdvanceInjective` | app-blockchain/segwit_address.py:26-32 | only the zero register advances to zero, because the five generators are independent in their low five bits |
| `Polymod.RunSymbols` | app-blockchain/segwit_address.py:28-32 | up to six symbols fed into an empty register stand in it side by side |
| `Bech32Checksum.HrpExpanded` | app-blockchain/segwit_address.py:36-38 | the expanded prefix has the high bits of all characters, a zero, and the low five bits, and each pair gives its character back |
| `Bech32Checksum.ChecksumUnique` | app-blockchain/segwit_address.py:36-57 | for every prefix, data of any length and encoding, six symbols verify as that encoding if and only if they are the created checksum |
| `Bech32Checksum.ChecksumSymbol` | app-blockchain/segwit_address.py:52-57 | the created symbols are the six 5-bit groups of the register for zeros, added to the constant, highest group first |
| `Bech32Checksum.BurstDetected` | app-blockchain/segwit_address.py:24-49 | at any length, a change within six neighbouring symbols of text that verifies never verifies under the same constant |
| `Bech32Vectors.StepNum` | app-blockchain/segwit_address.py:26-32 | one step of the register is the exclusive or of its six symbols, moved up, with the symbols of the generators that the symbol shifted out selects |
| `Bech32Vectors.Bech32Text` | app-blockchain/segwit_address.py:5-63 | the text `a12uel5l` that BIP-173 publishes is what is written for the prefix `a`, and reads back |
| `Bech32Vectors.Bech32mText` | app-blockchain/segwit_address.py:5-63 | the text `a1lqfn3a` that BIP-350 publishes is what is written for the prefix `a` in the other encoding, and reads back |
| `Bech32Vectors.CharsetRows` | app-blockchain/segwit_address.py:5 | the alphabet is the one that BIP-173 shows in four rows |
| `Bech32Codec.DecodeEncode` | app-blockchain/segwit_address.py:60-86 | reading what was written gives back encoding, prefix and data if and only if the prefix is not empty, has characters 33 to 126 without capitals, and the length rule holds |
| `Bech32Codec.EncodeDecode` | app-blockchain/segwit_address.py:60-86 | writing what was read gives the lower-case form of the text, for every accepted text |
| `Bech32Codec.DecodesExactly` | app-blockchain/segwit_address.py:66-86 | a text is accepted with a result if and only if it is not in mixed case, its length is allowed, and it is but for the case what is written for that result, whose prefix is proper |
| `Bech32Codec.AcceptedShape` | app-blockchain/segwit_address.py:66-86 | an accepted text has a proper prefix and at most 90 characters, all accounted for by prefix, separator, data and checksum |
| `Bech32Codec.EncodingsDiffer` | app-blockchain/segwit_address.py:52-63 | the two encodings never give the same text |
| `ConvertBits.ConvertBits` | app-blockchain/segwit_address.py:112-132 | for all widths, the masked accumulator computes the whole input as one number cut into groups of the new width, padded or checked, and refuses what is out of range |
| `ConvertBits.WriteGroups` | app-blockchain/segwit_address.py:124-126 | the inner loop writes the high bits of the number read so far and keeps every bit |
| `ConvertBits.TakeIn` | app-blockchain/segwit_address.py:122-123 | taking a group in keeps the accumulator equal to the end of the number |
| `ConvertBits.PutOut` | app-blockchain/segwit_address.py:125-126 | putting a group out keeps what is written equal to the start of the number |
| `ConvertBits.PadValue` | app-blockchain/segwit_address.py:127-129 | padded conversion never fails on input in range and writes the input's number moved up by the slack |
| `ConvertBits.UnpadPad` | app-blockchain/segwit_address.py:112-132 | for all widths, converting back without padding undoes padded conversion if and only if the padding is less than a group of the input |
| `ConvertBits.PadUnpad` | app-blockchain/segwit_address.py:127-132 | whatever converts without padding is the padded conversion of its result |
| `SegwitAddress.SegwitRoundTrip` | app-blockchain/segwit_address.py:135-160 | an address is written if and only if prefix, version, program size and total length are allowed, and it reads back as that version and program |
| `SegwitAddress.ReadsExactly` | app-blockchain/segwit_address.py:135-151 | a text that decodes reads as a version and a program if and only if it has the prefix, its data is the version and the symbols of the program, and both are allowed; the kind of checksum does not matter |
| `SegwitAddress.WrittenEncoding` | app-blockchain/segwit_address.py:156 | version 0 is written as Bech32 and every other version as Bech32m |
| `SegwitAddress.SegwitRewrite` | app-blockchain/segwit_address.py:135-160 | every address that is read can be written again; the text is the same in lower case if and only if its checksum is the one for its version |
| `SegwitAddress.OtherChecksum` | app-blockchain/segwit_address.py:149-160 | every address that can be written is also read with the other checksum, and is not that text when it is written again |
| `SegwitAddress.WrongChecksumRead` | app-blockchain/segwit_address.py:149-160 | twenty zero bytes of version 0 with the checksum for the other versions: an address that is read, and written as another text |
| `SegwitAddress.BytesThereAndBack` | app-blockchain/segwit_address.py:142-157 | symbols made from bytes give back the bytes, for every byte sequence |
| `SegwitAddress.SymbolsThereAndBack` | app-blockchain/segwit_address.py:142-157 | symbols that are accepted as bytes are the symbols of those bytes |
| `Harmony.EthThereAndBack` | app-blockchain/segwit_address.py:163-175 | an account number comes back in lower case if and only if it has at most 50 bytes; a longer one does not read at all |
| `Harmony.OneThereAndBack` | app-blockchain/segwit_address.py:163-175 | an address that is read comes back in lower case if and only if its prefix is `one` and its checksum is BECH32 |
| `Harmony.OtherPrefix` | app-blockchain/segwit_address.py:163-166 | an address with any other prefix is read, and comes back as another text |
| `Harmony.OtherPrefixRead` | app-blockchain/segwit_address.py:163-166 | one zero byte with the prefix `two`: an address that is read and does not come back |
| `Harmony.HexUnhex` | app-blockchain/segwit_address.py:166-173 | hexadecimal text that is read comes back in lower case |
| `HexText.UnhexHex` | app-blockchain/segwit_address.py:166-173 | bytes written as hexadecimal text come back |
| `HexText.HexAt` | app-blockchain/segwit_address.py:166 | each byte is two lower-case hexadecimal digits, the high one first |
| `Crc16.CalcCrcTon` | app-blockchain/validators.py:680-695 | the bit loop computes the run of the byte register over the message and two zero bytes, in big-endian order |
| `Crc16.FeedByte` | app-blockchain/validators.py:686-694 | the mask loop is one step of the byte register |
| `Crc16.Crc16XModem` | app-blockchain/encodings/crc16.py:37-41 | the loop computes the recursive table-driven CRC |
| `Crc16.TableEntry` | app-blockchain/encodings/crc16.py:1-34 | in a table whose rows follow from one another, every entry is its index shifted out of the register by eight bits |
| `Crc16.TableGood` | app-blockchain/encodings/crc16.py:1-34 | the 256 entries of the source's table do follow from one another |
| `Crc16.TableIsBitwise` | app-blockchain/encodings/crc16.py:37-41 | for every message, the table-driven CRC is the bitwise CRC of the message and two zero bytes |
| `Crc16.BitLinear` | app-blockchain/validators.py:688-694 | the bit step is linear over GF(2) |
| `Crc16.BitInjective` | app-blockchain/validators.py:688-694 | the bit step on a zero bit is injective on 16 bits |
| `TonAddress.AcceptsZeroCrc` | app-blockchain/validators.py:677 | the check on bytes accepts exactly the messages of two bytes or more whose whole CRC is zero |
| `TonAddress.FromBase64` | app-blockchain/validators.py:671-674 | the decoded bytes are the same number as the 6-bit values of the characters, in either alphabet |
| `TonAddress.SextetOrder` | app-blockchain/validators.py:668-674 | the characters count in the order of the alphabets of RFC 4648 |
| `TonAddress.RefusedTexts` | app-blockchain/validators.py:671-676 | characters of both alphabets, or of none, are refused, and a number of characters that is not a multiple of four raises |
| `TonAddress.ErrorsDetected` | app-blockchain/validators.py:667-695 | two accepted texts that differ in at most two neighbouring characters stand for the same bits |
| `TonAddress.SameRun` | app-blockchain/validators.py:685-694 | at any length, two bit strings with the same CRC that differ only within 16 neighbouring bits are equal |
| `Hedera.ComputeChecksum` | app-blockchain/validators.py:274-305 | the loops compute the five letters that the specification gives, or fail on a character that is not a digit or a dot |
| `Hedera.ReadDigits` | app-blockchain/validators.py:289-290 | the character loop reads the digits of all characters, or fails if one has none |
| `Hedera.SumDigits` | app-blockchain/validators.py:291-296 | the digit loop computes both alternate sums and the weighted sum |
| `Hedera.SpellOut` | app-blockchain/validators.py:302-304 | dividing by 26 in exact reals five times spells the five base-26 digits of the number |
| `Hedera.Example` | app-blockchain/validators.py:274-305 | the account number `0.0.123` has the checksum `vfmkw`, as HIP-15 shows |
| `Hedera.HornerValue` | app-blockchain/validators.py:291-292 | the weighted sum is the number that the digits stand for in base 31, modulo 26^3 |
| `Hedera.DigitOfIs` | app-blockchain/validators.py:289-290 | the decimal digits count for themselves and the dot for ten |
| `Hedera.ChecksumDetermines` | app-blockchain/validators.py:299-304 | two digit sequences have the same checksum if and only if their lengths modulo 5, both alternate sums modulo 11 and the weighted sums agree |
| `Hedera.SubstitutionDetected` | app-blockchain/validators.py:274-305 | at any length, changing one digit changes the checksum |
| `Hedera.TranspositionDetected` | app-blockchain/validators.py:274-305 | at any length, exchanging two different neighbours changes the checksum |
| `Hedera.LengthErrorDetected` | app-blockchain/validators.py:299 | sequences whose lengths differ by one to four have different checksums, whatever they hold |
| `Hedera.TypoDetected` | app-blockchain/validators.py:274-305 | at any length, changing one character of the text to another valid one changes the checksum |
| `Hedera.SwapDetected` | app-blockchain/validators.py:274-305 | at any length, exchanging two different neighbouring characters of the text changes the checksum |
| `BaseCodec.BaseEncode` | app-blockchain/lnaddr.py:63-93 | the loops compute the specification, and fail on an unsupported base |
| `BaseCodec.BaseDecode` | app-blockchain/lnaddr.py:96-130 | the loops compute the specification, with a foreign character, an unsupported base and a wrong length told apart |
| `BaseCodec.SumPowers` | app-blockchain/lnaddr.py:71-76 | the loop with growing powers computes the number that the digits stand for |
| `BaseCodec.Divide` | app-blockchain/lnaddr.py:77-82 | repeated division writes the shortest digits of the number, at least one, last digit first |
| `BaseCodec.CountPad` | app-blockchain/lnaddr.py:85-90 | the loop counts the leading zeros |
| `BaseCodec.ConvertThereAndBack` | app-blockchain/lnaddr.py:71-92 | for any two bases, converting there and back gives the same digits if and only if one is not zero; otherwise two zeros more |
| `BaseCodec.ConvertMeans` | app-blockchain/lnaddr.py:71-92 | converted digits stand for the same number and have the same leading zeros |
| `BaseCodec.DecodesExactly` | app-blockchain/lnaddr.py:99-130 | decoding fails exactly for other bases and for characters outside of the alphabet, and gives nothing exactly for another length than the one asked for |
| `BaseCodec.Example` | app-blockchain/lnaddr.py:63-93 | the bytes 0, 0, 58 are `1121` in base 58 |
| `BaseCodec.BytesThereAndBack` | app-blockchain/lnaddr.py:63-130 | for bases 58 and 43, decoding undoes encoding if and only if some byte is not zero; otherwise two zero bytes more come back |
| `BaseCodec.TextThereAndBack` | app-blockchain/lnaddr.py:63-130 | for bases 58 and 43, encoding undoes decoding if and only if some character is not the zero digit |
| `LnAmount.ShortenAmount` | app-blockchain/lnaddr.py:168-181 | the unit loop computes the specification for every amount |
| `LnAmount.AmountThereAndBack` | app-blockchain/lnaddr.py:168-210 | reading undoes writing if and only if the amount is a non-negative whole number of picobitcoin |
| `LnAmount.ReadsRoundedDown` | app-blockchain/lnaddr.py:168-210 | a non-negative amount reads back rounded down to picobitcoin |
| `LnAmount.NoShorterText` | app-blockchain/lnaddr.py:164-181 | no text that reads as the same amount is shorter than the one written |
| `LnAmount.TruncateIs` | app-blockchain/lnaddr.py:172 | an amount is cut to picobitcoin towards zero |
| `LnAmount.LetterMeans` | app-blockchain/lnaddr.py:194-210 | the letters m, u, n and p divide by a thousand, a million, and so on, and no letter by one |
| `LnAmount.ScaleExact` | app-blockchain/lnaddr.py:173-180 | dividing by a thousand is exact, and stops only where it would not be, or at the last unit |
| `LnFields.ComputeIntToData5` | app-blockchain/lnaddr.py:255-270 | the loop computes the specification, with its failures |
| `LnFields.ComputeIntFromData5` | app-blockchain/lnaddr.py:273-277 | the loop computes the number that the groups stand for |
| `LnFields.GroupsThereAndBack` | app-blockchain/lnaddr.py:263-277 | groups written for a number stand for it |
| `LnFields.NeverPadded` | app-blockchain/lnaddr.py:259-268 | a number that fits the bit length never has more groups than wanted, so that nothing is ever padded |
| `LnFields.DateGroups` | app-blockchain/lnaddr.py:255-270 | a date has seven groups if and only if it is at least 2^30, and never more |
| `LnFields.RefusedNumbers` | app-blockchain/lnaddr.py:259-262 | a number is refused exactly when it does not fit the bit length |
| `LnFields.Tagged5Shape` | app-blockchain/lnaddr.py:246-248 | a field is its letter, its length in two symbols with the high one first, and its payload; payloads from 1024 on are refused |
| `LnFields.Remaining.PullTagged` | app-blockchain/lnaddr.py:280-290 | a pull returns the first field and removes exactly it, or fails and leaves the data as it is |
| `LnFields.PullTagged5` | app-blockchain/lnaddr.py:246-290 | a field that is written is pulled with its tag and payload, and the rest is left |
| `LnFields.Tagged5Pull` | app-blockchain/lnaddr.py:246-290 | data that is pulled from is the written field followed by what is left |
| `LnFields.PullWritten` | app-blockchain/lnaddr.py:246-290 | fields that can be written are pulled in the same order until nothing is left |
| `LnFields.WritePulled` | app-blockchain/lnaddr.py:246-290 | data that is pulled to the end is what writing the fields gives |
| `LnCodec.WriteInvoice` | app-blockchain/lnaddr.py:293-389 | the writer computes the specification, with its failures |
| `LnCodec.AppendTags` | app-blockchain/lnaddr.py:316-368 | the tag loop adds every field in order to what is written and to the letters seen, and ends at the first tag that is refused |
| `LnCodec.CollectData` | app-blockchain/lnaddr.py:303-377 | the data part is the head and the tags, with exactly one of `d` and `h` |
| `LnCodec.LnAddr.TakeField` | app-blockchain/lnaddr.py:557-664 | one turn of the field loop updates the fields as specified for its letter and leaves date and amount |
| `LnCodec.LnAddr.TakeRoute` | app-blockchain/lnaddr.py:566-611 | routing fields are added, and skipped where they do not convert |
| `LnCodec.LnAddr.TakeFields` | app-blockchain/lnaddr.py:556-664 | the field loop ends on every input, consumes everything or fails, and leaves the specified fields |
| `LnCodec.CollectHops` | app-blockchain/lnaddr.py:580-593 | the hop loop reads whole hops until too little is left |
| `LnCodec.ReadText` | app-blockchain/lnaddr.py:509-695 | the reader computes the specification, with its failures |
| `LnCodec.ReadParts` | app-blockchain/lnaddr.py:540-695 | amount, date, fields and signer are read from their own parts of the invoice |
| `LnReader.AcceptedParts` | app-blockchain/lnaddr.py:516-695 | every accepted text, whoever wrote it, is the Bech32 form of the network's prefix, an amount, the data and a signature of 65 bytes; the result says this amount, date and fields, and its key signs the message: it is the key of the `n` field and the signature is valid for it, or without such a field it is recovered from the signature |
| `LnReader.PartsAccepted` | app-blockchain/lnaddr.py:516-695 | every text with such parts is accepted with this result if the key signs, and refused for its signature if no key does |
| `LnReader.UnverifiedNodeRefused` | app-blockchain/lnaddr.py:681-687 | an `n` field for which the signature is not valid makes the reader raise, whatever key signed |
| `LnReader.SignerChecked` | app-blockchain/lnaddr.py:681-693 | a key is found if and only if it signs, and otherwise the signature is bad |
| `LnReader.AmountSays` | app-blockchain/lnaddr.py:544-551 | an amount is read if and only if it is left out, or is a number with a multiplier in the range that can be set |
| `LnReader.SettableIff` | app-blockchain/lnaddr.py:409-422 | the amounts that can be set are the whole numbers of a thousandth of a satoshi up to 21 million bitcoin |
| `LnReader.MessageIs` | app-blockchain/lnaddr.py:379-381 | the signed message is the human-readable part, and so the amount, followed by the data as a number moved up to whole bytes |
| `LnReader.LetterNumbers` | app-blockchain/lnaddr.py:325-366 | each kind of tag has the letter and the number that BOLT #11 gives it |
| `LnReader.TagSymbol` | app-blockchain/lnaddr.py:325-366 | the field of a tag starts with the number of its letter |
| `LnReader.HopLayout` | app-blockchain/lnaddr.py:326-333 | a hop is 51 bytes: key, channel id, base fee, fee rate and expiry delta |
| `LnReader.TrampolineLayout` | app-blockchain/lnaddr.py:335-341 | a trampoline hop is 43 bytes: key, base fee, fee rate and expiry delta |
| `LnReader.Skipped` | app-blockchain/lnaddr.py:612-664 | fields of a wrong size, unknown letters and unknown fallback versions are kept as unknown and change nothing else |
| `LnReader.RoutesSkipped` | app-blockchain/lnaddr.py:577-599 | routing fields that do not convert, or are empty, say nothing |
| `LnReader.NoneTwice` | app-blockchain/lnaddr.py:318-323 | in a list of tags that is written, no `d`, `h`, `n`, `x` or `9` comes after another of its kind, but for a `9` of zero, which is left out |
| `LnReader.OneDescription` | app-blockchain/lnaddr.py:370-377 | an invoice that is written has a description or the hash of one, and only one of both |
| `LnRoundTrip.InvoiceThereAndBack` | app-blockchain/lnaddr.py:293-695 | for every invoice that is written with a date from 2^30, a settable amount and fields of their proper sizes: if no description is cut inside a character, the reader finds the same date, amount, payment hash, secret and tags in order, the signature of the identical message, and the signer's key; otherwise it raises |
| `LnRoundTrip.DateReadsBack` | app-blockchain/lnaddr.py:293-695 | an invoice that is written reads back with its date if and only if the date is at least 2^30 and no description is cut inside a character |
| `LnRoundTrip.EarlyDateLost` | app-blockchain/lnaddr.py:268-303 | an invoice with an earlier date never reads back with that date |
| `LnRoundTrip.EpochLost` | app-blockchain/lnaddr.py:268-303 | an invoice dated 0 that is written and does not read back with its date |
| `LnRoundTrip.DescriptionReads` | app-blockchain/lnaddr.py:346-348 | the bytes of a description read as text if and only if byte 639 does not exist or starts a character; the text is then the whole description where it fits, and a start of it otherwise |
| `LnRoundTrip.CutDescriptionRaises` | app-blockchain/lnaddr.py:621-622 | an invoice whose description has 638 letters and one character of two bytes is written, and the reader raises on it |
| `LnRoundTrip.FieldReads` | app-blockchain/lnaddr.py:325-366 | every kind of tag that is written is read as what it was written from, except that the reader raises on a description that is cut inside a character |
| `LnRoundTrip.TagsRead` | app-blockchain/lnaddr.py:316-368 | a list of tags that is written is read in the same order and nothing is left if no description is cut inside a character; otherwise the reader raises |
| `LnRoundTrip.DataReads` | app-blockchain/lnaddr.py:553-664 | the data part reads back as date, payment hash, secret and tags, or the reader raises on a description that is cut inside a character |
| `LnRoundTrip.HrpReads` | app-blockchain/lnaddr.py:295-300 | the prefix is a proper one and the amount in it reads back |
| `LnRoundTrip.RouteReads` | app-blockchain/lnaddr.py:325-334 | every list of hops with keys of 33 and channel ids of 8 bytes reads back |
| `LnRoundTrip.TrampolineReads` | app-blockchain/lnaddr.py:335-342 | a trampoline hop reads back as the only one of its list |
| `LnRoundTrip.FallbackReads` | app-blockchain/lnaddr.py:213-243 | a segwit fallback address reads back in its canonical form |
| `LnRoundTrip.CanonicalSame` | app-blockchain/lnaddr.py:213-243 | a segwit fallback address reads back as the same text if and only if it is in lower case and has the checksum for its version |
| `Utf8.DecodeEncode` | app-blockchain/lnaddr.py:348 | every text comes back from its UTF-8 bytes |
| `Utf8.EncodeDecode` | app-blockchain/lnaddr.py:622 | bytes that decode are the UTF-8 bytes of their text, so that nothing overlong or out of range decodes |
| `Utf8.CutDecodes` | app-blockchain/lnaddr.py:348 | the bytes of a text, cut anywhere, decode if and only if no character is cut, and then to a start of the text |
| `Utf8.Examples` | app-blockchain/lnaddr.py:348 | the bytes of a character of each size |
| `BlockAggregation.GetBlockAddresses` | app-blockchain/api/general_block_api.py:76-128 | the index names exactly the senders and receivers of the accepted transactions, keeps an account of every sender that conserves value, and lists what was received in order; it raises if and only if a block, or a transaction of a block, does not parse |
| `BlockAggregation.AcceptedFails` | app-blockchain/api/general_block_api.py:84-97 | nothing is accepted if and only if a block or one of its transactions does not parse |
| `BlockAggregation.AcceptedListed` | app-blockchain/api/general_block_api.py:84-99 | what is accepted is exactly the transfers at the places of all blocks where there is one, in the order of blocks and of transactions |
| `BlockAggregation.AddBlock` | app-blockchain/api/general_block_api.py:91-127 | one block more extends what the index describes by the accepted transactions of the block |
| `BlockAggregation.AddDescribes` | app-blockchain/api/general_block_api.py:100-127 | one transaction more keeps the index right, with every combination of the options |
| `BlockAggregation.RecordAccounts` | app-blockchain/api/general_block_api.py:112-122 | recording a transaction keeps its sender's account: no hash twice, an entry for each transaction with all that was sent in it, and the total of all |
| `BlockAggregation.RecordTotal` | app-blockchain/api/general_block_api.py:112-122 | recording adds exactly the value to the total, whether the hash is new or not |
| `BlockScanner.RunsKeepNoGap` | app-blockchain/api/general_block_api.py:27-74 | over every sequence of runs with any heads, failed fetches, parse errors, explicit starts and losses of the stored height, every height from the lowest of the first run since the scan was last started anew through the stored one was fetched and aggregated in a run that did not raise |
| `BlockScanner.StartStays` | app-blockchain/api/general_block_api.py:60-72 | without an explicit start and without loss of the stored height, the first height scanned stays that of the first run |
| `BlockScanner.StepKeepsNoGap` | app-blockchain/api/general_block_api.py:27-74 | one run, or the loss of the stored height, keeps that no height is skipped |
| `BlockScanner.Scanner.GetLatestBlock` | app-blockchain/api/general_block_api.py:27-51 | a run reports exactly the blocks of its window below the first that could not be fetched, stores the height it returns, keeps the invariant, and leaves the stored height where it raises |
| `BlockScanner.FetchBlocks` | app-blockchain/api/general_block_api.py:38-44 | the fetch loop returns the blocks below the first failure and the last height tried |
| `BlockScanner.Highest` | app-blockchain/api/general_block_api.py:69-74 | the window is never reversed and never reaches above the head |
| `BlockScanner.MinedIs` | app-blockchain/api/general_block_api.py:54-60 | an argument of 0 counts like none, and without a height the run raises |
| `BlockScanner.WindowIs` | app-blockchain/api/general_block_api.py:60-74 | the window starts above the explicit start, above the stored height, or four blocks below the head, has at most a hundred blocks and ends at the head |
| `BlockScanner.BrokenStays` | app-blockchain/api/general_block_api.py:45-51 | a block that is fetched and does not parse leaves the stored height and everything else as it was |
| `BlockScanner.FailedFetchStores` | app-blockchain/api/general_block_api.py:39-51 | a fetch that fails after blocks that parse stores the height below the failed one |
| `BlockScanner.FullWindowStores` | app-blockchain/api/general_block_api.py:39-51 | a window fetched in full stores the height below its last block, and the head where it is empty |
| `BlockScanner.CleanStep` | app-blockchain/api/general_block_api.py:38-51 | a run without errors with k blocks to read reads exactly the next min(k, 100) and moves the stored height by one less |
| `BlockScanner.CleanRuns` | app-blockchain/api/general_block_api.py:38-74 | after n runs without errors at a fixed head the stored height is the smaller of head - 1 and 99 n above where it was |
| `BchScanner.RunsKeepNoGap` | app-blockchain/bch.py:412-481 | over every sequence of runs and evictions of the stored height, every height from the lowest of the first scan since the last eviction through the stored one was read with all its pages in a scan in which no page failed |
| `BchScanner.StartStays` | app-blockchain/bch.py:412-418 | without eviction the first height scanned stays that of the first scan |
| `BchScanner.StepKeepsNoGap` | app-blockchain/bch.py:412-481 | one run, or an eviction, keeps that no height is skipped |
| `BchScanner.Scanner.GetLatestBlockAddresses` | app-blockchain/bch.py:395-481 | a scan moves the stored height, to the head, if and only if every page of every block above the old height was read; then it reports exactly the addresses in those blocks, and otherwise the reply to the first page that fails; every other answer for the head has its own report, and one without a height raises |
| `BchScanner.ReadBlocks` | app-blockchain/bch.py:420-481 | the block loop reads the head and then every height down to the one above the stored height, and ends at the first that fails |
| `BchScanner.ScanFound` | app-blockchain/bch.py:420-481 | what the block loop returns is the set of addresses in all blocks if all are read in full, and otherwise the reply for the highest block that is not |
| `BchScanner.ReadPages` | app-blockchain/bch.py:423-476 | the page loop follows the count of pages on each answer, and ends at the first page that fails |
| `BchScanner.PagesFound` | app-blockchain/bch.py:423-476 | the page loop finds exactly what is on the pages up to the last one asked for, or ends with the reply to that page |
| `BchScanner.LastPageIs` | app-blockchain/bch.py:425-445 | the last page asked for is the first that fails or reaches the count on it |
| `BchScanner.PageCountIs` | app-blockchain/bch.py:445 | the count of pages is the least that holds all records at fifty for each page |
| `BchScanner.FixedCount` | app-blockchain/bch.py:444-445 | where the count is the same on all pages, every record is on a page that is asked for, and no page beyond the records is, but for the first page of an empty block |
| `BchScanner.CollectPage` | app-blockchain/bch.py:448-476 | the record loop adds exactly the addresses of the qualifying outputs of the page |
| `BchScanner.CollectOutputs` | app-blockchain/bch.py:450-476 | the output loop adds the only address of every output that passes all filters, and no other |
| `BchScanner.InBlocksIff` | app-blockchain/bch.py:420-481 | an address is reported if and only if it is on some page of some block of the scan |
| `BchScanner.OnPagesIff` | app-blockchain/bch.py:425-476 | an address is found in a block if and only if it is on one of its pages |
| `BchScanner.PageAddressesIff` | app-blockchain/bch.py:448-476 | an address is on a page if and only if a transaction of the page has a qualifying output that names it |
| `BchScanner.QualifiedIff` | app-blockchain/bch.py:450-476 | an address is found in outputs if and only if one of them passes all filters and names it |
| `BchScanner.Refused` | app-blockchain/bch.py:451-473 | an output of another type, a spent one, one without value or without exactly one address does not count |
| `BchScanner.Passes` | app-blockchain/bch.py:451-473 | an unspent standard output of a value to one address counts |
| `BchScanner.StandardScript` | app-blockchain/bch.py:458-465 | the standard scripts around any key of forty word characters have the shapes asked for |
| `BchScanner.NewlineAllowed` | app-blockchain/bch.py:459-465 | a newline at the end of a script does not matter, as `$` matches before it |
| `BchScanner.OnlyStandardScript` | app-blockchain/bch.py:458-465 | and no other text has these shapes |
| `BchScanner.LowestIs` | app-blockchain/bch.py:413-421 | a scan starts above the stored height, or four blocks below the head without one, and at the head for a stored height of 0 at or above it |
| `BchScanner.ReplyIs` | app-blockchain/bch.py:432-441 | an empty body ends the scan without addresses, and every other failure with `None` |
| `CryptoNote.DecodeAll` | app-blockchain/monero_address_validation.py:60-107 | the block loop over the buffer computes the specification; every block is in its own slice |
| `CryptoNote.FillBlocks` | app-blockchain/monero_address_validation.py:85-94 | after the loop the front of the buffer holds the bytes of the full blocks in order |
| `CryptoNote.DecodeBlock` | app-blockchain/monero_address_validation.py:19-57 | a block is accepted if and only if its size, characters and value are; then its slice and nothing else is written, and the buffer keeps its length |
| `CryptoNote.BlockValue` | app-blockchain/monero_address_validation.py:37-49 | the digit loop computes the block's number, and ends early only where the whole number is above the bound |
| `CryptoNote.Uint64To8be` | app-blockchain/monero_address_validation.py:6-16 | the bytes are the big-endian base-256 digits of the number; a size outside 1 to 8 is refused |
| `CryptoNote.BlockValueKept` | app-blockchain/monero_address_validation.py:19-57 | the bytes of a block stand for the block's number, except that 2^64 becomes 0 |
| `CryptoNote.BlockCollision` | app-blockchain/monero_address_validation.py:45-55 | two accepted blocks of one size give the same bytes if and only if they are equal or stand for 0 and 2^64 |
| `CryptoNote.OverflowCollides` | app-blockchain/monero_address_validation.py:45 | two different accepted blocks with the same bytes |
| `CryptoNote.TextCollision` | app-blockchain/monero_address_validation.py:60-107 | two accepted texts of one length decode to the same bytes if and only if they agree after every block for 2^64 is written as the block for 0 |
| `CryptoNote.DecodeInjective` | app-blockchain/monero_address_validation.py:60-107 | two accepted texts of one length decode to the same hexadecimal text if and only if they agree after every block for 2^64 is written as the block for 0; without such a block, different texts decode differently |
| `CryptoNote.DecodedSizeIs` | app-blockchain/monero_address_validation.py:25-35 | a block has the least number of characters that can hold its bytes, and no other number of characters is a block |
| `CryptoNote.ReturnsFalseIff` | app-blockchain/monero_address_validation.py:75-80 | `False` is returned exactly for the lengths whose last block would have 1, 4 or 8 characters |
| `Ss58.AddressThereAndBack` | app-blockchain/ss58.py:8-100 | an encoded payload is decoded if and only if the format has one byte or the payload has 1, 32 or 33; it is then decoded for its own format and refused for every other |
| `Ss58.PlainReads` | app-blockchain/ss58.py:20-61 | where the sizes agree, the payload is recovered from the bytes and a format that was not asked for is refused |
| `Ss58.PlainLost` | app-blockchain/ss58.py:37-61 | where they do not agree, reading fails or loses a byte of the payload |
| `Ss58.ShortPayloadLost` | app-blockchain/ss58.py:37-40 | the payload of two zero bytes with format 64 is written and does not come back |
| `Ss58.FormatReads` | app-blockchain/ss58.py:22-28 | one- and two-byte formats read back from their bytes, for all formats up to 16383 |
| `Ss58.EncodedIs` | app-blockchain/ss58.py:97-100 | an address is the Base58 text of format, payload and the start of the hash of a fixed prefix and both |
| `Ss58.PrefixIs` | app-blockchain/ss58.py:66 | the fixed prefix is `SS58PRE` |
| `Ss58.EncodesExactly` | app-blockchain/ss58.py:72-87 | a payload is written if and only if its size is one of six and the format is allowed |
| `Ss58.FormatExamples` | app-blockchain/ss58.py:89-95 | the bytes of formats at both ends of both sizes |
| `Ss58.SizesAllowed` | app-blockchain/ss58.py:36-54 | for formats of one byte, the sizes of payload and checksum that are read are those of the SS58 table |
| `Ss58.ReadSound` | app-blockchain/ss58.py:22-61 | bytes that are read have an allowed format, the one asked for, and end in the checksum of what is before it |
| `Ss58.HexHandedBack` | app-blockchain/ss58.py:10-12 | text that starts with `0x` is handed back |

## Left out

- Batch mode of the block scanner: what is read depends on an explorer's range convention.
- Legacy fallback addresses (versions 17 and 18) and Base58Check: `sha256d` raises on every input, so that they never return; the model fails there.
- Texts with lone surrogates, which Python allows and does not encode: a text here is a sequence of Unicode scalar values.
- Lower and upper case are those of ASCII; Python also changes other letters, some of them into ASCII letters. Digits are `0` to `9`; `\d` and `int` also take other Unicode digits.
- Decimal rounding: amounts are exact. Hedera numbers are below 26^5 and their floating-point quotients are modelled as exact reals.
- Negative dates and numbers, on which the group loop of `int_to_data5` does not end, and witness versions above 31, on which writing raises.
- The kinds of exceptions that CryptoNote decoding raises are one value.
- Counts of transactions from 2^64 on, and pages with missing or malformed fields, in the Bitcoin Cash explorer's answers.
- `ada_bech32_decode`: the same reader without the length rule, which a text with no separator can break; it adds no new law.
- EIP-55 checksums, the regular-expression validators and memo checks: single-branch checks over a hash or a pattern.
- Signature curves (`ecc.py`, `ecc_fast.py`), explorers, inspectors, staking, wallets and configuration: foreign calls, HTTP and copying of fields.
