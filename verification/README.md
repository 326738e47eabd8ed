# Verification of the XML library, the platform tables and the mailbox transfer

This project models, in Dafny, four parts of the NVM management sources and proves properties of the models.
`dafny verify dfyconfig.toml` checks all of it.

1. **RapidXML** (`xml_*.dfy`). The parser with default flags exists twice: as functions of an immutable text
   (`XmlParser`) and as the recursive descent that rewrites the buffer it is still reading and hangs nodes into doubly
   linked lists (`XmlInPlaceText`, `XmlInPlace`, `XmlDom`). The second is proved against the first. The printer exists as
   functions on trees (`XmlPrinter`) and as loops over the links (`XmlDomPrinter`). `XmlGrammar` says, without the
   parser, which texts spell which documents; `XmlAcceptance` and `XmlDerivation` prove that the parser accepts exactly
   those, `XmlComplaints` what its errors mean, `XmlLayout` what printouts look like. On the functions rest the theorems
   that parsing undoes printing (`XmlRoundTrip`, `XmlDocument`, `XmlIndented`, `XmlReparse`); `XmlReprint` puts the two
   imperative halves together. `XmlTerminators` is about the printouts that cannot be parsed, `XmlEdit` about edits
   anywhere in a tree. `XmlClone` is `clone_node`, `XmlPool` the bump allocator, `XmlUtf8` the encoding of codes
   (section 3 of RFC 3629), `XmlReferences` compares numeric references with sections 2.2 and 4.1 of XML 1.0.
2. **Platform configuration data** (`pcd_*.dfy`): the three-level decoder, its serialization theorem, and the loop that
   fetches the data in chunks from a device that may fail; `PcdReads` says which bytes the decoder reads, `PcdBytes` which
   bytes each result comes from.
3. **NFIT** (`nfit_*.dfy`, section 5.2.25 of ACPI 6.2): the record parser, the DIMM list, the interleave sets.
   `Firsts` is the notion of first occurrence that the nested search loops implement; `NfitBytes` and `NfitResults` say
   which bytes of the table the structures, the DIMMs and the sets come from.
4. **Large mailbox** (`mailbox.dfy`): writing and reading a payload through a window, with a failure possible at every step.

`LittleEndian` holds packed structures: a layout is the sequence of field widths, a record the sequence of field values.
`Ranges` holds lists of bytes that are read, `Basics` facts about sequences and division.

## How to read the models

- A text is `seq<char>`, one element a byte, with the terminator behind it; a NUL inside a text ends it for the parser.
  `Intact` says from where on the buffer still holds the original text. A parsing step yields a value and a cursor, or
  the message and the place the parser throws with; errors are compared exactly.
- A name or value of a node is `NoStr` (null), `EmptyStr` (the static empty string) or a `Span` of memory. `Resolve` is
  the tree that the spans denote; `Settled` says that each has its terminator and lies in a range.
- `XmlNode.Valid` says that the links stand for the ghost sequences `children` and `attributes`, and that no object hangs
  below two nodes.
- Memory of the binary decoders is a function from addresses to bytes, so that reading a whole structure from a short
  record is defined. The device, the BIOS and the allocator answer arbitrarily, within what their contracts state; the
  answers come from a list, which for a mailbox transfer must be long enough for all its chunks.

## What the proofs brought to light

Each point is a lemma: a concrete input, and the exact condition for all inputs.

- `clone_node` promises to share names and values. An attribute string of size zero is measured again by
  `allocate_attribute` (`XmlClone.EmptyValueGrows`), so a clone equals its source exactly if such strings are
  zero-terminated (`XmlClone.ClonedExactly`). Parsed trees always meet this (`XmlReprint.ParsedClonesExactly`).
- `pt_result.driver` has four bits. An error number divisible by 16, among them 16 for a busy device, is stored as zero
  and the chunk counts as transferred: `Mailbox.LostWrite` ends with success and has written nothing. The same happens to
  BIOS codes divisible by 256 when writing, and to status bits outside two of four bytes. `Mailbox.UnseenWriteFailure` and
  `Mailbox.UnseenReadFailure` give the exact conditions.
- Closing tags may bear any name or none, and text may follow any element; `XmlDerivation.ParsesIffSpelled` says exactly
  what is accepted with the default flags, and as what.
- The digit table serves decimal references too (`XmlReferences.LetterInDecimal`), digits may be missing altogether
  (`XmlReferences.NoDigits`), and codes wrap around at 2^64 before they are compared with 0x10FFFF
  (`XmlReferences.Wrapped`). `XmlReferences.MeaningKept` says exactly when the parser's code is the one the standard
  means; all that the standard allows is read correctly (`XmlReferences.LegalIsRead`).
- Surrogates are encoded (`XmlReferences.SurrogateWritten`), which RFC 3629 forbids; every other code becomes UTF-8
  (`XmlUtf8.Utf8Exactly`).
- A reference to character zero puts a terminator into a value, and the printout of such a document is rejected
  (`XmlReparse.TerminatorWitness`). Terminators are the only obstacle: `XmlReparse.ReparseIsStable`.
- A record of length zero makes the configuration-table parsers loop for ever (`PcdParser.BusyForever`). The model ends
  there with the outcome `RunsForever`; `PcdParser.LoopsIffStuck` and `PcdParser.ParsesIffChain` say exactly which tables
  keep the parser busy and which are parsed.
- An NFIT buffer shorter than its header is parsed with success and no records, after a header has been copied from behind
  its end (`NfitParser.ShortBuffer`); a known record shorter than its structure is copied from behind its end, too
  (`NfitParser.ShortRecord`), and so may be type and length of a record that is rejected (`NfitParser.RejectedRecord`).
  `NfitParser.ReadsInside` says exactly which tables, accepted or not, are read inside their buffer only.
- The decoder of configuration data compares the offsets of the tables with the size of the data, and nothing else:
  `PcdReads.ShortDataOverread` are data read behind their end, `PcdReads.DataReadsInside` says exactly which are not.
- An interleave set has room for twelve DIMMs, and the thirteenth is written behind its arrays
  (`NfitInterleave.ThirteenDimms`, exactly when: `NfitInterleave.WritesInside`).
- `nfit_get_dimms_from_parsed_nfit` compares the count with its result before it looks for errors: a count of -1 and a bad
  table have it clear memory of a negative size (`NfitDimm.NegativeCount`, exactly when: `NfitDimm.GetDimms`).
- Offset and window of a mailbox transfer are added in 32 bits. Where the sum wraps around, a whole window behind the
  payload is transferred (`Mailbox.WindowBehindPayload`, exactly when: `Mailbox.CutInside`, `Mailbox.NoWrapExactly`).
- Several control regions with the same index (`NfitDimm.TwoRegionsOneIndex`): the last one gives a DIMM its identity, and
  the interface codes of all pile up. `NfitDimm.DimmOfEveryTable` says what a DIMM carries, whatever the table.

## Model

| member | source | states |
|---|---|---|
| `XmlDerivation.ParsesIffSpelled` | external/rapidxml-1.13/rapidxml.hpp:1381-1411 | The parser accepts a text, ends at a place and yields a document if and only if the text up to there is a spelling of that document in a grammar that does not mention the parser: byte order mark, white space wherever it is allowed, names, attributes in either quote with blanks around the sign, characters and references, elements, CDATA, and the markup that leaves no node |
| `XmlAcceptance.SpellingIsParsed` | external/rapidxml-1.13/rapidxml.hpp:1381-1411 | Every spelling of a document is parsed to that document |
| `XmlComplaints.ParseComplains` | external/rapidxml-1.13/rapidxml.hpp:1381-1411 | Whatever the text: if the parser rejects it, the message is true of the place, in terms of the text alone, for each of the eight messages that can occur. A missing semicolon is one of them |
| `XmlReprint.ParseSpelling` | external/rapidxml-1.13/rapidxml.hpp:1381-1411 | The in-place parse of a spelling builds that document and ends where the spelling ends; what it accepts is a spelling of what it has built; an error is true of its place |
| `XmlAcceptance.AttributeRead` | external/rapidxml-1.13/rapidxml.hpp:2242-2293 | Name, white space, sign, white space, and a value of any characters and references in either quote are read as the attribute of that name, with the value the pieces mean |
| `XmlAcceptance.AttributesRead` | external/rapidxml-1.13/rapidxml.hpp:2237-2298 | A list of them, with any white space or none behind each value |
| `XmlAcceptance.RunRead` | external/rapidxml-1.13/rapidxml.hpp:1570-1718 | Characters, named and numeric references in any mixture are expanded to what they mean, up to the delimiter |
| `XmlAcceptance.ItemRead` | external/rapidxml-1.13/rapidxml.hpp:2081-2163 | An element with blanks in its tags, a CDATA section, or markup without a node is read to its end as the node it spells, or none |
| `XmlAcceptance.ContentsRead` | external/rapidxml-1.13/rapidxml.hpp:2167-2233 | Text and markup in turn, up to a closing tag of any name, are read as the nodes they spell; white space alone is no text |
| `XmlAcceptance.DroppedRead` | external/rapidxml-1.13/rapidxml.hpp:1738-1932 | Processing instructions and declarations, comments, document types with nested brackets, and other markup end behind the first end mark that counts, and leave no node |
| `XmlDerivation.HeadPiece` | external/rapidxml-1.13/rapidxml.hpp:1587-1711 | Wherever expansion goes on, a character or reference of the grammar stands there |
| `XmlComplaints.ExpandFails` | external/rapidxml-1.13/rapidxml.hpp:1649-1683 | Where expansion fails, a numeric reference stands behind pieces of the grammar, and either its number is no code, which is reported at the place written to, or no semicolon ends its digits, which is reported there |
| `XmlLayout.ElementValueIs` | external/rapidxml-1.13/rapidxml.hpp:1979-1982 | The value of an element is that of its first data child that does not begin with a terminator, or else of its last data child, or else empty |
| `XmlLayout.PrintoutSpells` | external/rapidxml-1.13/rapidxml_print.hpp:388-391 | The unindented printout of a legal document is a spelling, by that grammar, of its normal form |
| `XmlLayout.EscapedByName` | external/rapidxml-1.13/rapidxml_print.hpp:47-81 | Exactly the five characters with a name are printed by that name, unless they are to be left alone |
| `XmlLayout.LineOfNode` | external/rapidxml-1.13/rapidxml_print.hpp:107-165 | An indented node is as many tab characters as it is deep, the node, and a line break |
| `XmlLayout.LinesOfChildren` | external/rapidxml-1.13/rapidxml_print.hpp:242-294 | Children stand between line breaks, one tab deeper than their element, whose closing tag is as deep as its opening one |
| `XmlLayout.AttributeSample` | external/rapidxml-1.13/rapidxml_print.hpp:178-204 | A value with a double quote is printed in single ones, with the quote as it is |
| `XmlLayout.PlainAttributeSample` | external/rapidxml-1.13/rapidxml_print.hpp:178-204 | Any other value is printed in double quotes |
| `XmlLayout.EmptySample` | external/rapidxml-1.13/rapidxml_print.hpp:242-294 | An element without value and children is a single tag, indented or not |
| `XmlLayout.ValueSample` | external/rapidxml-1.13/rapidxml_print.hpp:242-294 | A value stands between the tags without a line break |
| `XmlLayout.ChildSample` | external/rapidxml-1.13/rapidxml_print.hpp:242-294 | An element with a child, indented, character by character |
| `XmlLayout.DroppedPrinted` | external/rapidxml-1.13/rapidxml_print.hpp:298-380 | Comments, document types, processing instructions, declarations and CDATA are printed as the grammar writes them |
| `XmlLayout.CommentPassedOver` | external/rapidxml-1.13/rapidxml_print.hpp:321-335 | A printed comment, anywhere in a text, is passed over by the parser to its last character, if its text does not hold the end mark |
| `XmlLayout.DoctypePassedOver` | external/rapidxml-1.13/rapidxml_print.hpp:339-357 | The same for a document type whose brackets are closed |
| `XmlLayout.InstructionPassedOver` | external/rapidxml-1.13/rapidxml_print.hpp:361-380 | The same for a processing instruction |
| `XmlLayout.DeclarationPassedOver` | external/rapidxml-1.13/rapidxml_print.hpp:298-317 | The same for a declaration with its attributes |
| `XmlDocument.DocumentRoundTrip` | external/rapidxml-1.13/rapidxml.hpp:1381-1411 | For every legal document, whatever its text: parsing the unindented printout succeeds at its very end and yields the normal form of the document (neighbouring data nodes merged, blank runs between tags dropped, element values taken from the first data node) |
| `XmlDocument.RoundTripExactlyCanonical` | external/rapidxml-1.13/rapidxml.hpp:1381-1411 | The printout parses back to the document itself if and only if the document is canonical: no blank and no adjacent data nodes, and element values that agree with the children |
| `XmlDocument.NormalIffCanonical` | external/rapidxml-1.13/rapidxml.hpp:2167-2233 | Canonical trees are exactly the ones that are their own normal form |
| `XmlDocument.NormalIsCanonical` | external/rapidxml-1.13/rapidxml.hpp:2167-2233 | What comes back from a printout is canonical, so that a second round changes nothing |
| `XmlRoundTrip.NodeRoundTrip` | external/rapidxml-1.13/rapidxml_print.hpp:107-165 | A printed element or CDATA node, anywhere in a text, is read back as its normal form, up to its last character |
| `XmlRoundTrip.ContentRoundTrip` | external/rapidxml-1.13/rapidxml_print.hpp:242-294 | The printed contents and closing tag of an element are read back as the normal form of its children, or of its value if it has none |
| `XmlRoundTrip.AttributesRoundTrip` | external/rapidxml-1.13/rapidxml_print.hpp:178-204 | A printed attribute list is read back attribute by attribute, for every value and either quote |
| `XmlRoundTrip.ExpandEscape` | external/rapidxml-1.13/rapidxml_print.hpp:47-81 | Escaping then expanding is the identity on every text without terminators, for element data and for attribute values in the quote the printer chooses |
| `XmlRoundTrip.EscapeHidesDelimiter` | external/rapidxml-1.13/rapidxml_print.hpp:47-81 | The escaped form never contains the delimiter that will end it |
| `XmlRoundTrip.CDataRoundTrip` | external/rapidxml-1.13/rapidxml_print.hpp:219-237 | A printed CDATA section is read back whole: its end mark does not occur earlier, not even by way of brackets at the end of the value |
| `XmlRoundTrip.QuotesEnclose` | external/rapidxml-1.13/rapidxml_print.hpp:186-200 | The quote chosen for a value and the quote left unescaped in it are always a delimiter and its counterpart |
| `XmlIndented.IndentedDocument` | external/rapidxml-1.13/rapidxml_print.hpp:159-174 | The indented printout is the unindented printout of the document padded with line breaks and tabs |
| `XmlIndented.IndentationInvisible` | external/rapidxml-1.13/rapidxml_print.hpp:242-294 | Where text occurs only as the sole child of an element, the indented and the unindented printout parse to the same tree |
| `XmlIndented.IndentedRoundTripExactly` | external/rapidxml-1.13/rapidxml_print.hpp:242-294 | An indented printout parses back to the document itself if and only if the document is canonical and has text only as sole children |
| `XmlReparse.ReparseIsStable` | external/rapidxml-1.13/rapidxml.hpp:1381-1411 | The printout of a document that the parser has built, from any text, can be parsed again if and only if no terminator character is in it; it then gives the normal form, which is the document itself exactly if that is canonical |
| `XmlReparse.TerminatorWitness` | external/rapidxml-1.13/rapidxml.hpp:1649-1683 | A reference to character zero inside an element is accepted, and the printout of the document it yields is rejected |
| `XmlTerminators.PrintoutParsesIff` | external/rapidxml-1.13/rapidxml_print.hpp:47-81 | Any document of the shape the parser builds, whatever characters are in its values: its printout parses if and only if none is a terminator, wherever in the tree it may be |
| `XmlTerminators.NodeFails` | external/rapidxml-1.13/rapidxml_print.hpp:107-165 | The printout of a node with a terminator character anywhere below, wherever it stands in a text, makes the parser fail |
| `XmlText.Expand` | external/rapidxml-1.13/rapidxml.hpp:1570-1718 | Expansion of an immutable copy: it stops at the delimiter or the terminator, stays inside the text, and never yields more characters than it has read |
| `XmlText.Skip` | external/rapidxml-1.13/rapidxml.hpp:1558-1564 | The cursor stops at the first character outside the class, never behind the terminator, and everything passed is in the class |
| `XmlText.NumericFits` | external/rapidxml-1.13/rapidxml.hpp:1649-1683 | A numeric reference, with any digits and with the wrap-around of unsigned long, is at least as long as the bytes written for it, even before its semicolon |
| `XmlUtf8.Utf8RoundTrip` | external/rapidxml-1.13/rapidxml.hpp:1511-1554 | For every code below 0x110000, surrogates included: a leading byte that announces the length, continuation bytes, no form longer than necessary, and the code read back from the bits that are left |
| `XmlUtf8.Utf8Exactly` | external/rapidxml-1.13/rapidxml.hpp:1511-1554 | The bytes written for a code below 0x110000 are a sequence of the grammar of RFC 3629 if and only if the code is no surrogate |
| `XmlUtf8.Utf8Injective` | external/rapidxml-1.13/rapidxml.hpp:1511-1554 | No two codes are written as the same bytes |
| `XmlUtf8.MasksAreArithmetic` | external/rapidxml-1.13/rapidxml.hpp:1511-1548 | The shifts and masks applied to a 32-bit code, for leading and continuation bytes of every length, are the divisions and remainders that the model uses |
| `XmlReferences.ParserReads` | external/rapidxml-1.13/rapidxml.hpp:1649-1676 | The parser takes the longest run of hexadecimal digits, in either base, and its code is the number those digits are worth modulo 2^64 |
| `XmlReferences.StandardIsRead` | external/rapidxml-1.13/rapidxml.hpp:1649-1683 | Every reference in the form of section 4.1 of XML 1.0 is recognized up to its semicolon, with its number modulo 2^64 |
| `XmlReferences.LegalIsRead` | external/rapidxml-1.13/rapidxml.hpp:1649-1683 | Every numeric reference that the standard allows, in form and in character, is replaced by the UTF-8 of its character, and expansion goes on behind its semicolon |
| `XmlReferences.MeaningKept` | external/rapidxml-1.13/rapidxml.hpp:1649-1676 | Before a semicolon, the code is the number that the standard means if and only if there is a digit, every digit belongs to the base, and the number is below 2^64 |
| `XmlReferences.LetterInDecimal` | external/rapidxml-1.13/rapidxml.hpp:1665-1677 | A hexadecimal digit in a decimal reference: no reference by the standard, character 20 for the parser |
| `XmlReferences.NoDigits` | external/rapidxml-1.13/rapidxml.hpp:1665-1683 | A reference without digits: none by the standard, character zero for the parser |
| `XmlReferences.Wrapped` | external/rapidxml-1.13/rapidxml.hpp:1651-1661 | A reference to 2^64 + 65 is taken for the letter A |
| `XmlReferences.SurrogateWritten` | external/rapidxml-1.13/rapidxml.hpp:1511-1554 | A reference to a surrogate is expanded, and the bytes are not UTF-8 |
| `XmlParser.ParseNode` | external/rapidxml-1.13/rapidxml.hpp:2081-2163 | Reading a node moves the cursor forward and not behind the terminator; with the remaining length as measure, the mutual recursion of node, element, contents and tag terminates on every text |
| `XmlParser.ParseElement` | external/rapidxml-1.13/rapidxml.hpp:2037-2077 | The same for an element |
| `XmlParser.ParseContents` | external/rapidxml-1.13/rapidxml.hpp:2167-2233 | The same for the contents of an element |
| `XmlParser.ParseTag` | external/rapidxml-1.13/rapidxml.hpp:2188-2220 | The same for a closing tag or a child and what follows it |
| `XmlParser.ParseAttributes` | external/rapidxml-1.13/rapidxml.hpp:2237-2298 | The same for a list of attributes, which ends at a character that begins no attribute name |
| `XmlParser.ParseAttribute` | external/rapidxml-1.13/rapidxml.hpp:2242-2293 | The same for one attribute; which texts are attributes is XmlAcceptance.AttributeRead and XmlDerivation.ParsesIffSpelled |
| `XmlParser.ParseQuoted` | external/rapidxml-1.13/rapidxml.hpp:2269-2289 | The same for a quoted value |
| `XmlParser.ParseCData` | external/rapidxml-1.13/rapidxml.hpp:1998-2033 | The same for a CDATA section |
| `XmlParser.Find` | external/rapidxml-1.13/rapidxml.hpp:1744-1750 | The first place where a closing pattern stands; no terminator lies before it |
| `XmlParser.SkipDoctype` | external/rapidxml-1.13/rapidxml.hpp:1814-1876 | A document type declaration ends inside the text, behind a '>' |
| `XmlParser.DoctypeEnds` | external/rapidxml-1.13/rapidxml.hpp:1814-1876 | It ends behind the first '>' outside all brackets, if no terminator comes before it; otherwise the error is at the terminator |
| `XmlInPlaceText.SkipAndExpand` | external/rapidxml-1.13/rapidxml.hpp:1570-1718 | The in-place loop computes the pure expansion: same error and place, or the value stands in the buffer where the original began, the write cursor has not passed the read cursor, the rest of the text is intact and nothing before it has changed |
| `XmlInPlaceText.ExpandOne` | external/rapidxml-1.13/rapidxml.hpp:1587-1711 | One round translates or copies exactly what the pure expansion of the original text calls for, moves the read cursor forward and keeps the write cursor behind it |
| `XmlInPlaceText.TranslateReference` | external/rapidxml-1.13/rapidxml.hpp:1593-1691 | The switch on the character behind an ampersand finds the same reference as comparing all patterns in turn |
| `XmlText.OneMatchAtMost` | external/rapidxml-1.13/rapidxml.hpp:1595-1690 | The character behind the ampersand decides which references are possible |
| `XmlInPlaceText.TranslateNumeric` | external/rapidxml-1.13/rapidxml.hpp:1650-1683 | A numeric reference: the digits, the limit on codes, the semicolon, and the bytes written before the semicolon is checked |
| `XmlInPlaceText.ScanDigits` | external/rapidxml-1.13/rapidxml.hpp:1653-1676 | The digit loops accumulate the code with wrap-around and stop at the first character that is no digit |
| `XmlInPlaceText.InsertCodedCharacter` | external/rapidxml-1.13/rapidxml.hpp:1511-1554 | Exactly the bytes of the code are written at the cursor; codes above 0x10FFFF are rejected without writing |
| `XmlInPlaceText.Matches` | external/rapidxml-1.13/rapidxml.hpp:1599-1647 | Comparing character by character in the buffer agrees with looking at the text, without reading behind the terminator |
| `XmlInPlaceText.SkipChars` | external/rapidxml-1.13/rapidxml.hpp:1558-1564 | The skipping loop finds the index the pure function names |
| `XmlInPlaceText.PureIsExpanded` | external/rapidxml-1.13/rapidxml.hpp:1581-1586 | Text without references and delimiters, passed over by the fast first loop, expands to itself |
| `XmlInPlace.Parse` | external/rapidxml-1.13/rapidxml.hpp:1381-1411 | The destructive parse of any buffer: same error and place as parsing an immutable copy, or a well-formed linked tree of new nodes that denotes exactly the tree of the pure parse; every name and value still stands in the buffer with its terminator, and nothing behind the end has changed. After an error too the document is well-formed, holds exactly the top-level nodes before the error, intact, and the buffer behind the text is untouched |
| `XmlInPlace.AllNodesBefore` | external/rapidxml-1.13/rapidxml.hpp:1396-1410 | If there is no error, the nodes before it are all nodes |
| `XmlInPlace.ParseNode` | external/rapidxml-1.13/rapidxml.hpp:2081-2163 | One node, parsed in place, agrees with the pure parser; it changes the buffer only between its beginning and its end |
| `XmlInPlace.ParseMarkup` | external/rapidxml-1.13/rapidxml.hpp:2110-2161 | Comments, CDATA, document types and other markup are told apart as in the pure parser |
| `XmlInPlace.ParseElement` | external/rapidxml-1.13/rapidxml.hpp:2037-2077 | An element parsed in place denotes the element of the pure parser, with its name terminated last |
| `XmlInPlace.TerminateName` | external/rapidxml-1.13/rapidxml.hpp:2071-2073 | Writing the terminator behind the name, after the contents have been parsed, overwrites no other string |
| `XmlInPlace.ParseRest` | external/rapidxml-1.13/rapidxml.hpp:2053-2069 | The end of the opening tag, and the contents if there are any |
| `XmlInPlace.ParseNodeContents` | external/rapidxml-1.13/rapidxml.hpp:2167-2233 | The contents loop builds the children, and the element value, of the pure parse |
| `XmlInPlace.ParseUpToTag` | external/rapidxml-1.13/rapidxml.hpp:2172-2229 | White space or one data node up to the next tag, although its '<' may have been overwritten |
| `XmlInPlace.ParseTag` | external/rapidxml-1.13/rapidxml.hpp:2188-2220 | A closing tag or a child, parsed from behind the '<' |
| `XmlInPlace.ParseAndAppendData` | external/rapidxml-1.13/rapidxml.hpp:1940-1994 | The data node and the element value it may set; the terminator may fall on the character that ended the data, which is therefore returned |
| `XmlInPlace.ParseCData` | external/rapidxml-1.13/rapidxml.hpp:1998-2033 | A CDATA node whose value stands in the buffer, terminated |
| `XmlInPlace.ParseNodeAttributes` | external/rapidxml-1.13/rapidxml.hpp:2237-2298 | The attribute loop builds the attribute list of the pure parse |
| `XmlInPlace.ReadAttribute` | external/rapidxml-1.13/rapidxml.hpp:2242-2293 | One attribute: its strings stand in the buffer where it was read, both terminated, and denote the attribute of the pure parser, which takes exactly the spellings of XmlAcceptance.AttributeRead |
| `XmlInPlace.ReadQuoted` | external/rapidxml-1.13/rapidxml.hpp:2269-2289 | A quoted value expanded in place and terminated |
| `XmlInPlace.SkipDoctype` | external/rapidxml-1.13/rapidxml.hpp:1814-1876 | The nested bracket loops end where the pure function, which counts depth, says |
| `XmlInPlace.Find` | external/rapidxml-1.13/rapidxml.hpp:1744-1750 | The search loops for closing patterns, with the error at the terminator |
| `XmlInPlace.SkipByteOrderMark` | external/rapidxml-1.13/rapidxml.hpp:1725-1734 | Exactly the three bytes of the mark are skipped |
| `XmlSettled.SettledFrame` | external/rapidxml-1.13/rapidxml.hpp:2071-2073 | What happens outside its range changes neither the strings of a tree nor the tree they denote |
| `XmlReprint.ParseAndPrint` | external/rapidxml-1.13/rapidxml_print.hpp:388-391 | Parsing in place and printing the linked tree gives the printout of the pure parse; the printout of a canonical document comes back character by character |
| `XmlReprint.Transfer` | external/rapidxml-1.13/rapidxml_print.hpp:388-391 | A linked document printed and parsed into new objects arrives as its normal form, and as itself exactly if it is canonical |
| `XmlReprint.ParsedClonesExactly` | external/rapidxml-1.13/rapidxml.hpp:497-520 | A tree that parsing has left in memory is cloned exactly |
| `XmlDomPrinter.Print` | external/rapidxml-1.13/rapidxml_print.hpp:388-391 | Printing the linked tree writes the printout of the tree it denotes |
| `XmlDomPrinter.PrintNode` | external/rapidxml-1.13/rapidxml_print.hpp:107-165 | The same for one node at any indentation, behind what has already been written |
| `XmlDomPrinter.PrintChildren` | external/rapidxml-1.13/rapidxml_print.hpp:169-174 | The loop over the sibling links prints the children in order |
| `XmlDomPrinter.PrintElement` | external/rapidxml-1.13/rapidxml_print.hpp:242-294 | Empty elements, elements with a value, with a sole data child and with other children |
| `XmlDomPrinter.PrintAttributes` | external/rapidxml-1.13/rapidxml_print.hpp:178-204 | The loop over the attribute links prints the attributes in order |
| `XmlDomPrinter.CopyAndExpandChars` | external/rapidxml-1.13/rapidxml_print.hpp:47-81 | The escaping loop writes the escaped form |
| `XmlDom.XmlNode.AppendNode` | external/rapidxml-1.13/rapidxml.hpp:1097-1112 | The links stand for the old children and the new one behind them, the tree below stays well formed, and no other object changes but the old last child's link |
| `XmlDom.XmlNode.PrependNode` | external/rapidxml-1.13/rapidxml.hpp:1076-1091 | The same in front |
| `XmlDom.XmlNode.InsertNode` | external/rapidxml-1.13/rapidxml.hpp:1119-1135 | The same in front of any child, or at the end for a null place |
| `XmlDom.XmlNode.RemoveFirstNode` | external/rapidxml-1.13/rapidxml.hpp:1140-1150 | The first child is taken off, and can be hung in again |
| `XmlDom.XmlNode.RemoveLastNode` | external/rapidxml-1.13/rapidxml.hpp:1155-1168 | The last child is taken off, and can be hung in again |
| `XmlDom.XmlNode.RemoveNode` | external/rapidxml-1.13/rapidxml.hpp:1171-1185 | Any child is taken off, and can be hung in again |
| `XmlDom.XmlNode.RemoveAllNodes` | external/rapidxml-1.13/rapidxml.hpp:1188-1193 | All children are taken off at once |
| `XmlDom.XmlNode.AppendAttribute` | external/rapidxml-1.13/rapidxml.hpp:1217-1232 | The attribute list grows at its end |
| `XmlDom.XmlNode.PrependAttribute` | external/rapidxml-1.13/rapidxml.hpp:1197-1212 | The attribute list grows at its beginning |
| `XmlDom.XmlNode.InsertAttribute` | external/rapidxml-1.13/rapidxml.hpp:1239-1255 | The attribute list grows at any place |
| `XmlDom.XmlNode.RemoveFirstAttribute` | external/rapidxml-1.13/rapidxml.hpp:1260-1272 | The first attribute is taken off |
| `XmlDom.XmlNode.RemoveLastAttribute` | external/rapidxml-1.13/rapidxml.hpp:1277-1289 | The last attribute is taken off |
| `XmlDom.XmlNode.RemoveAttribute` | external/rapidxml-1.13/rapidxml.hpp:1293-1306 | Any attribute is taken off |
| `XmlDom.XmlNode.RemoveAllAttributes` | external/rapidxml-1.13/rapidxml.hpp:1309-1314 | All attributes are taken off |
| `XmlDom.TreesInsert` | external/rapidxml-1.13/rapidxml.hpp:1119-1135 | Inserting a node into the sequence of children inserts its tree into the sequence of trees |
| `XmlDom.OwningInsert` | external/rapidxml-1.13/rapidxml.hpp:1119-1135 | Hanging in a separate tree keeps every object below at most one node |
| `XmlEdit.EditBelow` | external/rapidxml-1.13/rapidxml.hpp:1076-1314 | Inserting or removing one or all children or attributes of a node anywhere below leaves the whole tree well-formed, with exactly the objects that have come and gone, and the tree it stands for is the old one edited at that place |
| `XmlEdit.AppendBelow` | external/rapidxml-1.13/rapidxml.hpp:1097-1112 | Appending to a node anywhere below, for one |
| `XmlClone.ClonedExactly` | external/rapidxml-1.13/rapidxml.hpp:497-520 | A clone has the tree of its source if and only if the empty attribute strings of the source are zero-terminated, since an attribute size of zero makes the size be measured again |
| `XmlClone.EmptyValueGrows` | external/rapidxml-1.13/rapidxml.hpp:452-463 | An empty attribute value in front of another character is cloned to a value of one character |
| `XmlClone.CloneNode` | external/rapidxml-1.13/rapidxml.hpp:497-520 | Cloning ends on every tree and gives a well-formed tree of new objects only, with the tree the source has after re-measuring; the source is not written |
| `XmlClone.CloneInto` | external/rapidxml-1.13/rapidxml.hpp:497-520 | With a result node given, its former contents are replaced, and the source is unchanged |
| `XmlClone.AllocateAttribute` | external/rapidxml-1.13/rapidxml.hpp:447-467 | Name and value are taken over, with sizes of zero measured |
| `XmlClone.MeasureIs` | external/rapidxml-1.13/rapidxml.hpp:310-316 | The measured size ends at the first terminator |
| `XmlPool.MemoryPool.AllocateAligned` | external/rapidxml-1.13/rapidxml.hpp:599-631 | A block is added if and only if the request does not fit behind the last allocation of the current block, or behind its header if it has none; the result is the first aligned address there, or in the new block. It is disjoint from every earlier allocation, and the pool stays valid: all allocations inside their blocks and behind their headers, all blocks apart, all headers intact |
| `XmlPool.FirstRequests` | external/rapidxml-1.13/rapidxml.hpp:599-631 | Four requests of a new pool, in numbers: two share the static memory, one starts a block of the usual size, and one larger than that gets a block of its own size |
| `XmlPool.MemoryPool.StartBlock` | external/rapidxml-1.13/rapidxml.hpp:604-626 | A block the allocator returns has room for its header and for the request |
| `XmlPool.MemoryPool.Write` | external/rapidxml-1.13/rapidxml.hpp:599-631 | Writing to an allocation destroys no header, so the pool stays valid whatever its users write |
| `XmlPool.MemoryPool.Clear` | external/rapidxml-1.13/rapidxml.hpp:525-537 | Following the headers frees every dynamic block and nothing else, newest first, and leaves the pool as new |
| `XmlPool.UnwoundOnce` | external/rapidxml-1.13/rapidxml.hpp:525-537 | That order names every dynamic block exactly once |
| `XmlPool.AlignUp` | external/rapidxml-1.13/rapidxml.hpp:573-577 | The least multiple of the alignment that is not below the address |
| `XmlPool.MaskIsModulo` | external/rapidxml-1.13/rapidxml.hpp:575-576 | Masking with a power of two computes the same padding, for alignments of 4, 8 and 16 |
| `XmlPool.SlackSuffices` | external/rapidxml-1.13/rapidxml.hpp:606-626 | The size asked for always holds the header, two alignments and the request |
| `XmlPool.AllocationsDisjoint` | external/rapidxml-1.13/rapidxml.hpp:599-631 | Allocations in different blocks, or one behind the other, do not overlap |
| `XmlPool.AllocationsMissHeaders` | external/rapidxml-1.13/rapidxml.hpp:599-631 | No allocation touches the header of any block |
| `LittleEndian.UnpackPack` | src/acpi/nfit_tables.h:50-167 | Fields that fit a packed structure are read back from its bytes |
| `LittleEndian.PackUnpack` | src/acpi/nfit_tables.h:50-167 | Any bytes of the right length are what their fields pack to |
| `LittleEndian.FieldWord` | src/acpi/nfit_tables.h:50-167 | A field of a packed structure is the number in the bytes at its offset |
| `LittleEndian.FourBytes` | src/acpi/nfit_tables.h:50-167 | The lowest byte of a number comes first |
| `NfitTables.HeaderSize` | src/acpi/nfit_tables.h:50-63 | The header structure takes forty bytes |
| `NfitBytes.ListsFromBytes` | src/acpi/nfit_tables.h:50-167 | Every field of every structure in the seven lists is the number at its offset in a record of that type, in table order |
| `NfitBytes.SpaFromBytes` | src/acpi/nfit_tables.h:65-78 | Index, proximity domain, type, base, length and attributes of an address range are the numbers at bytes 4, 12, 16, 32, 40 and 48 of its record |
| `NfitBytes.MappingFromBytes` | src/acpi/nfit_tables.h:80-97 | Handle, physical id, range index, region index, size, offset, base and state of a region mapping are the numbers at bytes 4, 8, 12, 14, 16, 24, 32 and 44 |
| `NfitBytes.RegionFromBytes` | src/acpi/nfit_tables.h:118-144 | Index, the ten identity fields and the interface code of a control region are the numbers at bytes 4 to 29, each at its own place |
| `NfitBytes.HeaderOffsets` | src/acpi/nfit_tables.h:50-63 | Where the ten fields of the header stand |
| `NfitBytes.RegionOffsets` | src/acpi/nfit_tables.h:118-144 | Where the fields of a control region stand |
| `NfitBytes.InterleaveOffsets` | src/acpi/nfit_tables.h:99-108 | Where the fields of an interleave record stand |
| `NfitBytes.SmbiosOffsets` | src/acpi/nfit_tables.h:110-116 | Where the fields of an SMBIOS record stand |
| `NfitBytes.WindowOffsets` | src/acpi/nfit_tables.h:146-157 | Where the fields of a block data window stand |
| `NfitBytes.FlushHintOffsets` | src/acpi/nfit_tables.h:159-167 | Where the fields of a flush hint record stand |
| `NfitParser.ParseRawNfit` | src/acpi/nfit_parser.c:254-345 | Success exactly if positive-length records tile the bytes behind the header; then each of the seven lists holds the structures of its type in table order. Bad input for a null or empty buffer, a bad table otherwise. The bytes read on the way, on errors too, are exactly those that ReadsInside speaks of |
| `NfitParser.WalkIffTiling` | src/acpi/nfit_parser.c:274-336 | Following type and length succeeds exactly when the bytes are a concatenation of records, and there is only one way to read them so |
| `NfitParser.RecordListed` | src/acpi/nfit_parser.c:287-334 | Every known record stands in the list of its type behind exactly the earlier ones of that type |
| `NfitParser.ListedRecord` | src/acpi/nfit_parser.c:287-334 | Every entry of a list comes from such a record |
| `NfitParser.ParsedNfit.Append` | src/acpi/nfit_parser.c:37-63 | If the lists hold exactly the records, type by type and in table order, among the ones passed so far, they do so with the next known one included; the header stays |
| `NfitParser.ReadsInside` | src/acpi/nfit_parser.c:265-334 | Any table, accepted or rejected, is read inside its buffer only if and only if the buffer holds the whole header, and wherever a record is looked for there is room for its type and length and, if it is accepted and of a known type, for the structure that is copied |
| `NfitParser.ParsedReadsInside` | src/acpi/nfit_parser.c:265-334 | For a table parsed with success, this is so if and only if every record has room for its structure |
| `NfitParser.RejectedRecord` | src/acpi/nfit_parser.c:274-284 | Every buffer of a header and one or two bytes whose length byte, which stands behind it, exceeds them is rejected, and has been read behind its end |
| `NfitParser.ShortBuffer` | src/acpi/nfit_parser.c:265-274 | Every buffer shorter than the header is a table without records, and is read behind its end |
| `NfitParser.ShortRecord` | src/acpi/nfit_parser.c:287-334 | A record of a known type that is shorter than its structure is accepted, and is read behind the end of the table |
| `NfitRoundTrip.TableRoundTrip` | src/acpi/nfit_parser.c:254-345 | Parsing a written table gives back the header and, list by list, the structures in order, if each known record is at least as long as its structure and type and length fit a byte |
| `NfitRoundTrip.ParseWritten` | src/acpi/nfit_parser.c:254-345 | The parser method itself on a written table |
| `NfitRoundTrip.WrittenReadsInside` | src/acpi/nfit_parser.c:265-334 | A written table, with known records at least as long as their structures, is read without a look behind its end |
| `NfitRoundTrip.EntryRead` | src/acpi/nfit_parser.c:277-288 | Type, length and structure of one written record are read back |
| `NfitDimm.GetUniqueHandles` | src/acpi/nfit_dimm.c:136-167 | The count phase yields the distinct handles in first-occurrence order, or reports a bad table exactly if the first mapping of a handle leads to no control region |
| `NfitDimm.GetDimms` | src/acpi/nfit_dimm.c:169-204 | Counting and filling agree: with room for all, the fill phase succeeds whenever the count phase has and fills element i from the first mapping of handle i; too small or null an array is bad input. For every count, negative ones included: memory of a negative size is cleared exactly if the count is negative but not below the result of counting |
| `NfitDimm.NegativeCount` | src/acpi/nfit_dimm.c:169-191 | Such a table: one mapping without its control region, and a count of -1 |
| `NfitDimm.FillFinds` | src/acpi/nfit_dimm.c:100-118 | The search for a handle finds the mapping that was counted, and its control region exists |
| `NfitDimm.HandlesListed` | src/acpi/nfit_dimm.c:136-167 | The handles are those of the mappings, each once, in the order of first occurrence |
| `NfitDimm.CodesShape` | src/acpi/nfit_dimm.c:37-65 | Whatever the table, the interface codes are nine places with distinct nonzero codes and zeros behind them |
| `NfitDimm.DimmOfEveryTable` | src/acpi/nfit_dimm.c:67-98 | Whatever the table: a DIMM carries the identity of the last control region with its index, or none, and the first nine distinct nonzero codes in the order in which those regions, one after the other, contribute the codes of all regions with their serial number |
| `NfitDimm.CodesPileUp` | src/acpi/nfit_dimm.c:54-98 | The fill loop adds to the codes already there those for every region of the index, in order and without repetition |
| `NfitDimm.LastIdentityStays` | src/acpi/nfit_dimm.c:67-98 | The fill loop leaves the identity of the last region of the index, and nothing but identity and codes changes |
| `NfitDimm.TwoRegionsOneIndex` | src/acpi/nfit_dimm.c:67-98 | Two regions with one index and different serial numbers: the second gives the identity, and the codes of both are kept |
| `NfitDimm.DimmWithUniqueRegion` | src/acpi/nfit_dimm.c:67-98 | With unique control-region indices a DIMM carries the identity of its region and the first nine distinct nonzero codes among all regions with its serial number |
| `NfitDimm.AddIfcPadded` | src/acpi/nfit_dimm.c:37-52 | Adding a code to the padded list of distinct codes; a full list takes no more |
| `NfitDimm.AddIfcKeepsShape` | src/acpi/nfit_dimm.c:37-52 | Adding any code keeps the shape and changes at most one place, to that code |
| `NfitDimm.NfitDimm.AddIfcToList` | src/acpi/nfit_dimm.c:37-52 | The in-place search loop over the code array |
| `NfitDimm.NfitDimm.AddAllFormatCodes` | src/acpi/nfit_dimm.c:54-65 | The codes of all regions with the serial number are added in order |
| `NfitDimm.NfitDimm.AddControlRegionInfo` | src/acpi/nfit_dimm.c:67-98 | Success exactly if a region with the index exists; the object then is what the fold over the regions yields, which DimmOfEveryTable describes |
| `NfitDimm.NfitDimm.AddInfoFromHandle` | src/acpi/nfit_dimm.c:100-118 | Only the first mapping of the handle counts |
| `Firsts.EachKeyOnce` | src/acpi/nfit_dimm.c:136-167 | Choosing the first element with each key keeps every key, once |
| `Firsts.InOrder` | src/acpi/nfit_dimm.c:136-167 | The chosen elements are first occurrences and keep their order |
| `NfitInterleave.GetInterleaveSets` | src/acpi/nfit_interleave.c:102-147 | One set for each persistent-memory range, in order; counting and filling return the same number, and a positive array that is too small is bad input. An array is written behind its end exactly if one is given and the count is negative or one of the ranges it covers has more than twelve DIMMs |
| `NfitInterleave.InterleaveSet.PopulateDimmInfo` | src/acpi/nfit_interleave.c:52-77 | The four parallel arrays describe the first mapping of each distinct handle with the range index, in order, with zeros behind; the places written to are those that WritesInside speaks of, and the first one behind the arrays is come to exactly if there are more than twelve |
| `NfitInterleave.WritesInside` | src/acpi/nfit_interleave.c:52-77 | The loop writes place after place, and stays inside the arrays if and only if the range has no more than twelve different handles |
| `NfitInterleave.ThirteenDimms` | src/acpi/nfit_interleave.c:52-77 | Thirteen mappings of different DIMMs to one range: the place behind the arrays is written |
| `NfitInterleave.InterleaveSet.IsDimmAlreadyAdded` | src/acpi/nfit_interleave.c:38-50 | Membership among the DIMMs added so far |
| `NfitInterleave.FillSet` | src/acpi/nfit_interleave.c:127-139 | A set carries the data of its range, if it has room for its DIMMs |
| `NfitPipeline.DimmsOfTable` | src/acpi/nfit_dimm.c:210-221 | From raw bytes to DIMMs, for counting as for filling: the parser's error if the bytes are no sequence of records, else the result of the search over the structures, which are given by the numbers at literal places of the records; what each DIMM then carries is NfitResults.DimmFromBytes |
| `NfitPipeline.SetsOfTable` | src/acpi/nfit_interleave.c:102-147 | The same for the interleave sets, whose contents are NfitResults.SetFromBytes, SetColumns and MemberFromBytes |
| `NfitPipeline.ListsAreView` | src/acpi/nfit_tables.h:169-189 | The lists of the parser, as the searches use them, are the numbers at those places |
| `NfitResults.DimmFromBytes` | src/acpi/nfit_dimm.c:67-118 | Handle, physical id and state of a DIMM are the numbers at bytes 4, 8 and 44 of the first region mapping of its handle, and its ten identity fields those at their places of the last control region with the index that the mapping names |
| `NfitResults.SetFromBytes` | src/acpi/nfit_interleave.c:127-139 | Id, proximity domain, address, size and attributes of a set are the numbers at bytes 4, 12, 32, 40 and 48 of its range, and its DIMM count that of the distinct handles |
| `NfitResults.SetColumns` | src/acpi/nfit_interleave.c:52-77 | Place by place, the four arrays of a set are handle, base, offset and size of its members, and zero behind them |
| `NfitResults.MemberFromBytes` | src/acpi/nfit_interleave.c:52-77 | A member of a set is the first mapping to the range with its handle, with the numbers at bytes 4, 32, 24 and 16 of that record |
| `NfitResults.RangesFiltered` | src/acpi/nfit_interleave.c:113-121 | The ranges of sets are those with the type of persistent memory, in order |
| `NfitResults.MappingsFiltered` | src/acpi/nfit_interleave.c:52-63 | The mappings of a set are those that name the range, in order |
| `NfitResults.CodesFiltered` | src/acpi/nfit_dimm.c:54-65 | The codes for a serial number are the nonzero ones of its regions, in order |
| `NfitResults.PiledFiltered` | src/acpi/nfit_dimm.c:67-98 | The codes that pile up are, for each region of the index in order, those for its serial number |
| `NfitResults.DimmCountIs` | src/acpi/nfit_dimm.c:136-167 | The count is that of the first mappings, or -3 if one of them names no control region |
| `NfitPipeline.WrittenIsSeen` | src/acpi/nfit_parser.c:254-345 | What the searches see of a written table, field by field at literal places of its bytes, is what its records say |
| `NfitPipeline.DimmsOfWritten` | src/acpi/nfit_dimm.c:210-221 | From the records of a written table to the DIMMs a caller gets, with no bytes in between: as many as there are distinct handles, each described by its first mapping |
| `NfitPipeline.SetsOfWritten` | src/acpi/nfit_interleave.c:102-147 | The same for the interleave sets: one for each persistent-memory range, with its members |
| `PcdParser.ParsePlatformConfigData` | src/firmware_interface/fis_parser.c:476-558 | Header, offset checks and the three tables, stopping at the first stage that fails, as PcdBytes.DataOutcome says by the bytes; the bytes read on the way are exactly those that DataReadsInside speaks of |
| `PcdParser.ParseConfigTable` | src/firmware_interface/fis_parser.c:308-474 | A table's loop over typed records, its lists and its outcome, which PcdBytes.TableSucceedsIff, TypeNotFoundIff and FieldsFromBytes give by the bytes; the distance to the table's length decreases at every record |
| `PcdParser.ParseInterleave` | src/firmware_interface/fis_parser.c:263-293 | An interleave record with exactly as many sub-records as its count says, at their places |
| `PcdParser.ParseRecord` | src/firmware_interface/fis_parser.c:383-407 | A record is appended to the list of its type, and its sixteen-bit length is what the cursor moves by |
| `PcdParser.ParsesIffChain` | src/firmware_interface/fis_parser.c:381-412 | A table parses with success if and only if records of known types and positive lengths follow one another until its length is reached, and then there is only one such sequence |
| `PcdParser.LoopsIffStuck` | src/firmware_interface/fis_parser.c:381-412 | The loop never ends if and only if records of known types and positive lengths lead, inside the table, to one of length zero |
| `PcdParser.BusyForever` | src/firmware_interface/fis_parser.c:381-412 | A table of 57 bytes that keeps the parser of the current configuration busy for ever |
| `PcdParser.CursorFits` | src/firmware_interface/fis_parser.c:381-412 | Behind whatever record inside a table the signed cursor fits 32 bits if and only if the table is no longer than 0x7FFF0001 bytes |
| `PcdParser.CursorOverflows` | src/firmware_interface/fis_parser.c:381-412 | A table of the greatest length whose parser comes to a record from which a cursor of 32 bits cannot move on |
| `PcdParser.LengthField` | src/firmware_interface/fis_commands.h:299-349 | The length of a table is the fifth to eighth byte |
| `PcdParser.TableSizes` | src/firmware_interface/fis_commands.h:299-349 | Where the records of each table begin |
| `PcdParser.LengthFirst` | src/firmware_interface/fis_commands.h:275-298 | The length field of every record is its third and fourth byte |
| `PcdBytes.TableSucceedsIff` | src/firmware_interface/fis_parser.c:381-412 | A table is parsed with success if and only if records of type 5, or in the input and output tables of type 5 or 4, of positive length reach the table's length |
| `PcdBytes.TypeNotFoundIff` | src/firmware_interface/fis_parser.c:381-412 | The code for a type that is not found comes exactly if such records lead, inside the table, to one of another type; in the current configuration that includes type 4 |
| `PcdBytes.TableOutcome` | src/firmware_interface/fis_parser.c:381-412 | Behind any such records the outcome is settled by what stands there: the end, an unknown type, or a record of length zero |
| `PcdBytes.TableRecords` | src/firmware_interface/fis_parser.c:381-412 | Such records always lead to one of the three |
| `PcdBytes.KnownIs` | src/firmware_interface/fis_parser.c:383-407 | Type 5 is known to all three tables, type 4 to all but the current configuration |
| `PcdBytes.DataOutcome` | src/firmware_interface/fis_parser.c:500-558 | The outcome is that of the first stage that does not succeed, with the offsets at bytes 40, 48 and 56; tables behind it, or without an offset inside the data, are empty |
| `PcdBytes.FieldsFromBytes` | src/firmware_interface/fis_commands.h:299-349 | The copied fields of each table are the numbers at literal places of its bytes |
| `PcdBytes.HeaderFromBytes` | src/firmware_interface/fis_parser.c:476-500 | The copied fields of the header, and the three offsets, are the numbers at literal places |
| `PcdBytes.InterleaveFromBytes` | src/firmware_interface/fis_parser.c:263-293 | Nine fields of an interleave record, and as many sub-records of 48 bytes from byte 24 on as byte 6 says, at literal places |
| `PcdBytes.PartitionFromBytes` | src/firmware_interface/fis_parser.c:295-306 | The four fields of a partition change at literal places |
| `PcdBytes.InterleavesFiltered` | src/firmware_interface/fis_parser.c:383-395 | The interleave list is made of the records of type 5, in order |
| `PcdBytes.PartitionsFiltered` | src/firmware_interface/fis_parser.c:396-407 | The partition list is made of the records of type 4, in order |
| `PcdRoundTrip.BlobRoundTrip` | src/firmware_interface/fis_parser.c:476-558 | Header and tables written one behind the other are decoded to themselves: the copied header fields, and each table with its records, for all fields and record lists with consistent lengths |
| `PcdRoundTrip.DataRoundTrip` | src/firmware_interface/fis_parser.c:476-558 | The same wherever in the data the tables stand, and whichever of them are missing |
| `PcdRoundTrip.TableRead` | src/firmware_interface/fis_parser.c:308-474 | A serialized table is read back, with partition changes in any table but the current configuration: copied fields, and per type the records in order |
| `PcdRoundTrip.EntriesRead` | src/firmware_interface/fis_parser.c:381-412 | A serialized record list is scanned with success, and its lists are the order-preserving filters |
| `PcdRoundTrip.InterleaveRead` | src/firmware_interface/fis_parser.c:263-293 | A serialized interleave record is read back with all its sub-records |
| `PcdReads.DataReadsInside` | src/firmware_interface/fis_parser.c:476-558 | Any data, whatever comes of them, are read inside only if and only if they hold the whole header, and every table that is come to lies in them with its fields and with every record and sub-record that is looked at |
| `PcdReads.TableInside` | src/firmware_interface/fis_parser.c:381-412 | The same for one table: lengths and counts of its records decide, not its own length |
| `PcdReads.WrittenReadsInside` | src/firmware_interface/fis_parser.c:476-558 | Header and tables written with consistent lengths are read back without a look behind the end of the data |
| `PcdReads.ReadsAreFields` | src/firmware_interface/fis_commands.h:268-349 | What is read of each structure ends with the last field that is copied |
| `PcdReads.ShortDataOverread` | src/firmware_interface/fis_parser.c:503-512 | 61 bytes whose first table begins at byte 60 are decoded with success, and read behind their end |
| `PcdFetch.Fetch` | src/firmware_interface/fis_commands.c:261-296 | Under any sequence of failures: the bytes fetched so far equal the device's and no others are touched; the loop ends exactly with the success number ceil(size / 128), all bytes copied and code zero |
| `PcdFetch.FetchChunk` | src/firmware_interface/fis_commands.c:276-294 | One round leaves everything as it was, or extends what has been fetched by one chunk, cut at the size |
| `PcdFetch.LastChunk` | src/firmware_interface/fis_commands.c:284-287 | The comparison that cuts the last chunk is right for all sizes, even where its sum of int wraps around |
| `PcdFetch.SumFits` | src/firmware_interface/fis_commands.c:284-287 | That sum fits an int throughout the loop if and only if the size is at most 0x7FFFFF80 |
| `PcdFetch.ProgressComplete` | src/firmware_interface/fis_commands.c:276-294 | The data are complete after exactly that many successful reads |
| `PcdFetch.InNumbers` | src/firmware_interface/fis_commands.c:276-294 | Chunks of 128 bytes, the last one cut at the size |
| `Mailbox.WriteLargePayload` | src/driver_interface/lnx_passthrough.c:107-203 | If the query of the sizes fails and UnseenQueryFailure does not apply, there is no success, no chunk is sent and the mailbox is untouched. Success exactly if the query and every chunk used were recorded as successes and the payload is not too large, and then the chunks are the whole plan; after a chunk recorded as failed the result is what was recorded, with its first field set to unknown, and never success. Byte by byte, the mailbox holds the payload where the BIOS really took the chunk, and anything elsewhere; if it took every chunk the mailbox holds the payload |
| `Mailbox.ReadLargePayload` | src/driver_interface/lnx_passthrough.c:208-291 | The same for reading into the destination |
| `Mailbox.WriteChunk` | src/driver_interface/lnx_passthrough.c:132-184 | One chunk extends what has landed by the truth about that chunk |
| `Mailbox.ReadChunk` | src/driver_interface/lnx_passthrough.c:231-270 | The same in the other direction, where only a chunk recorded as a success is copied |
| `Mailbox.SameIffLanded` | src/driver_interface/lnx_passthrough.c:107-203 | What arrived is what was sent if and only if every byte was really transferred or happens to stand there already |
| `Mailbox.AllArrived` | src/driver_interface/lnx_passthrough.c:107-203 | If every answer was truly a success, all has arrived |
| `Mailbox.LostWrite` | src/driver_interface/lnx_passthrough.c:107-203 | A run that ends with success although the byte it was to write is not in the mailbox |
| `Mailbox.PlanTiles` | src/driver_interface/lnx_passthrough.c:124-131 | The chunks tile the payload without gap or overlap, none empty and none larger than the window |
| `Mailbox.PlanCount` | src/driver_interface/lnx_passthrough.c:124-131 | There are ceil(n / window) of them |
| `Mailbox.UnseenWriteFailure` | src/driver_interface/lnx_passthrough.c:164-184 | Exactly when a write the BIOS has not taken is recorded as a success: error numbers divisible by 16, BIOS codes divisible by 256, status bits outside the two bytes kept |
| `Mailbox.UnseenReadFailure` | src/driver_interface/lnx_passthrough.c:46-69 | The same for reads, where positive codes are ignored by design |
| `Mailbox.UnseenQueryFailure` | src/driver_interface/lnx_passthrough.c:74-103 | The same for the query of the sizes: exactly when it fails and is recorded as a success |
| `Mailbox.WriteFields` | src/driver_interface/lnx_passthrough.c:132-184 | What is recorded for a chunk to write, field by field: what went wrong before, the error number modulo 16, the BIOS code modulo 256, the lowest and the third byte of the status |
| `Mailbox.ReadFields` | src/driver_interface/lnx_passthrough.c:231-270 | The same for a chunk to read, where output of a wrong size counts if nothing else went wrong |
| `Mailbox.SizesFields` | src/driver_interface/lnx_passthrough.c:74-103 | The same for the query of the sizes |
| `Mailbox.BusyGoesUnseen` | src/driver_interface/passthrough.h:93-100 | Error number 16, device busy, is such a case in both directions |
| `Mailbox.RoomForWindow` | src/driver_interface/lnx_passthrough.c:127-131 | Payload and window together within 32 bits suffice for the sum never to wrap |
| `Mailbox.NoWrapExactly` | src/driver_interface/lnx_passthrough.c:127-131 | The sum never wraps around if and only if ceil(n / window) whole windows fit 32 bits |
| `Mailbox.CutInside` | src/driver_interface/lnx_passthrough.c:127-131 | A step ends inside the payload if and only if its sum does not wrap around, and moves on if and only if the window is not empty |
| `Mailbox.WindowBehindPayload` | src/driver_interface/lnx_passthrough.c:127-131 | 2^31 + 1 bytes through windows of 2^31: the second step reads a whole window behind the payload |

## Left out

- Parser flags other than the defaults: trimming and normalizing white space, comment, declaration, document type and processing-instruction nodes in the tree, closing-tag validation, non-destructive modes.
- Nodes of those kinds in the round-trip theorems: the parser drops them by default, so they cannot come back; XmlLayout.CommentPassedOver and the lemmas beside it say that it passes over their printouts.
- The element that is being read when the in-place parser throws: it hangs in no document, and the model does not describe it. For the same reason an attribute is hung into its node after its value has been read, where the source does it before.
- XmlInPlace.Parse: memory never runs out; a name or value that a caller has given the document node is kept, and need not stand in the buffer.
- XmlDom.XmlNode.Valid: speaks of the tree below a node, and the editing methods restore it for the node they are called on; for all nodes above, XmlEdit.EditBelow does so.
- XmlClone.CloneInto: source and result must not overlap.
- Buffers of one-byte characters: a text element is a `char`, and the bytes of a numeric reference are characters below 256.
- Lookup tables as data: each is the predicate its comment describes.
- XmlPool.MemoryPool.AllocateAligned: addresses do not wrap around, and the allocator is assumed to return memory that belongs to no block in use; the alignment is any positive number up to the static pool size.
- XmlPool.AlignUp: computes with remainders where the source masks bits, as XmlInPlaceText.InsertCodedCharacter computes with divisions where the source shifts and masks; that these agree is XmlPool.MaskIsModulo and XmlUtf8.MasksAreArithmetic, on bit vectors.
- Searching children and attributes by name, `parent` and `document` lookups of attributes, `allocate_string`.
- NfitParser.ParseRawNfit: does not model running out of memory, nor the structure that is freed on an error while the caller still holds its address.
- NfitParser.ParsedNfit.Append: one method stands for the seven appenders, which differ in the list alone; `realloc` and copying become appending to a sequence, and memory never runs out.
- NfitDimm.GetDimms: stops, and says so, where the source would clear memory of a negative size; what C does then is not modelled.
- NfitInterleave.GetInterleaveSets: stops, and says so, where the source would write behind an array; what C does then is not modelled. The parsing and comparing of GUIDs is not part of this model, a range type is a number.
- NfitPipeline.DimmsOfTable: reading the table from ACPI, with its checksum, is not part of this model.
- PcdParser.ParseConfigTable: one method stands for the three table parsers; the cursor is unbounded, so that what C does after a signed overflow is not modelled; that needs a table longer than 0x7FFF0001 bytes (PcdParser.CursorFits).
- PcdFetch.Fetch: sizes below 2^31 only, as the source's cast to int needs; above 0x7FFFFF80 (PcdFetch.SumFits) the sum of offset and chunk size overflows an int, which C leaves undefined and the model lets wrap around; a device that fails for ever keeps the source in its loop, where the model stops with the list of answers.
- Mailbox.WriteLargePayload: where the sizes are known and suffice, a window of size zero is excluded, which would keep the source in its loop, and so is a sum of offset and window that wraps around in 32 bits, which would make it read behind the payload (Mailbox.CutInside); the same holds for Mailbox.ReadLargePayload.
- The flat field copies of the other firmware commands, text printers, command dispatch, capabilities and the Windows driver interface: each is settled by reading it.
