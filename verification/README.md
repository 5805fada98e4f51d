# Models of five parts of the repository, and proofs about them

This project models the parts of the repository that compute something hard,
and proves what they are for. `dafny verify dfyconfig.toml` checks all of it.

* **TinyXML** (`oscshell2012 - NOPASSWD/OSCConfig`). Parser, printer, entity
  codec, node lists, attribute ring, string buffer, positions and newlines.
  The main result is that parsing what TiXmlPrinter prints gives the same
  document back.
  * `XmlText` and `XmlParser` say what parsing yields, as functions on the text
    behind a pointer. `XmlReader` and `XmlDocument` are the loops and the
    document object, proved to compute those functions.
  * `XmlPrinter` holds the printed text of every node and the printer class
    that appends it. `XmlCodec`, `XmlRoundTrip` and `XmlTheorems` build up to
    the round trip: one character, one text, one tag, one node, one document.
    It is an equivalence: `XmlRange` shows what the parser can build from any
    text at all, `XmlExact` which single values and texts come back, and
    `XmlBack` that the first of them that does not come back makes the whole
    document differ.
  * `XmlLayout` reads what no printer wrote: white space, quotes and short forms
    of any kind do not matter (`LayoutDoesNotMatter`). `XmlErrors` does the same
    for documents that break off: the first flaw decides, at any depth
    (`FirstFlawDecides`). `XmlMarks` and `XmlReferences` are declarations,
    encodings, byte order marks and character references; `XmlSamples` is what
    the printer writes, in literal text.
  * `XmlDom` is the heap of doubly linked nodes. A ghost shape names the nodes
    of a tree; the operations edit the list of children, and `Sound` says that
    all links follow. `XmlDomInside` carries every edit to any node of a larger
    tree: the whole tree stays well formed. `XmlAttributeSet` is the ring of
    attributes.
  * `XmlString`, `XmlCursor` and `Utf8` are the growing buffer, the row and
    column of a mark with the newlines of a file, and code points.
* **DES and the password format** (`DBRecord/datasafe.h`). `DesSpec` is the
  cipher with the tables of the source, `DesTheorems` its laws (FIPS PUB 46-3,
  Enciphering and Deciphering), `DesMachine` the loops over bit arrays and the
  global key arrays. `PasswordSpec` and `PasswordMachine` are the cascade, the
  hex text, the records with a random session key and the chunking.
  `DesWords` refines the cipher to machine words. With it `DesAnswers` proves
  the known answers of NBS Special Publication 500-20, and `PasswordAnswers`
  two stored passwords; `DesDesign` holds the design rules of the S-boxes.
* **Wildcards** (`IEHelper/StringHelper.cpp`). `Wildcard`: the backtracking loop
  decides whether the pattern matches a prefix of the text. `Letters` names the
  two alphabets, for this and for every other place where case does not count.
* **SQL text and policies** (`DBRecord/DBoperate.c`, `DBRecord/dbrecord.c`).
  `Sequences`, `Substrings`, `SqlText`, `StringsReplace` and `PolicySearch`.
* **Oracle numbers and INI arrays** (`OracleProxy/oraclefilter.c`,
  `OSCShell/Ini.cpp`). `OracleNumber` and `IniArray`.

## Conventions

* A `char` stands for one byte, and character classes are those of the "C"
  locale. In the XML modules a pointer into a NUL-terminated buffer is the text
  from there to the terminator, and a null pointer is `None`. A UTF-8 sequence
  that the terminator cuts short ends at the terminator.
* `unsigned long` in entity decoding and the byte arithmetic of NUMBER decoding
  wrap around at 32 and 8 bits; lengths are unbounded.
* Random bytes are a parameter, one draw of eight for each record.
* The tables that GetPolicy queries are finite sequences of rows; the query for
  the parent of a group is a finite map.

## Where the code differs from what it is meant to do

* EncodeString copies hexadecimal references as they stand. A value or text
  with such a reference does not come back, whatever follows it:
  `CodecRoundTrip`, `AttributeBack` and `TextBack` are equivalences, and so is
  `DocumentRoundTrip`.
* Condensed text loses leading, trailing and doubled blanks (`TextBack`), and
  neighbouring texts become one (`NeighbourTextsMerge`, `NeighbourTextsKept`);
  without neighbouring texts nothing is lost (`NeighboursMatter`).
* The fields of a declaration are printed without encoding but read with
  entities (`FieldBack`).
* With white space kept, the pretty printer's layout around text becomes part
  of it (`LayoutIsKept`, `PrettyPrintingAddsWhite`): such a text comes back
  exactly if there is no layout around it (`KeptTextBack`).
* Next() takes an attribute without name and value for the end of the list, so
  printing and Clone lose whatever follows one (`ReachedIsPrefix`,
  `OnlyReachedIsPrinted`, `CopyIsEqual`).
* Clone hands values and attributes on as C strings: a NUL, which a document can
  hold as a reference, cuts them (`CloneCutsAtNul`). `CopyIsEqual` says which
  copies are equal.
* randomDES measures the padded text with strlen, so a NUL among the random
  pad bytes makes the record unreadable: `PasswordRoundTrip` is an equivalence.
* PrintData prints positive numbers below 0.01 as 0, and negative numbers above
  -1 not at all: `PrintedExactly` is an equivalence.
* WriteArray does not protect items: untrimmed items and those that hold the
  delimiter do not come back (`ListComesBack`).
* GetArray's list form takes a parameter bTrimString (Ini.h:104) but does not
  hand it on: trimming is always on. The list is the one asked for exactly if
  there was nothing to trim (`GetArray`, `TrimmingMatters`).

## Model

| member | source | states |
|---|---|---|
| XmlTheorems.DocumentRoundTrip | oscshell2012 - NOPASSWD/OSCConfig/tinyxml.cpp:1756-1885 | parsing the printed text gives the same nodes, no byte order mark and no error (for a document without nodes the empty-document error) if and only if the document is shaped (names, marks, no blank or neighbouring texts, no text outside of elements) and settled (no references, and no white space that the reading mode or the layout changes): for every layout of white space, both reading modes, and in every initial encoding, over all legible documents (whole characters, references closed inside their text, no quote or ampersand in a declaration) |
| XmlTheorems.PrintAndParse | oscshell2012 - NOPASSWD/OSCConfig/tinyxml.cpp:1156-1167 | the class-level form, again an equivalence: what a new TiXmlPrinter leaves in its buffer, pretty or stream, makes a new TiXmlDocument hold exactly the nodes visited |
| XmlExact.AttributeBack | oscshell2012 - NOPASSWD/OSCConfig/tinyxmlparser.cpp:1392-1463 | a printed attribute comes back with the pointer right behind it, whatever follows and in every encoding, if and only if its value holds no hexadecimal reference |
| XmlExact.TextBack | oscshell2012 - NOPASSWD/OSCConfig/tinyxmlparser.cpp:596-635 | a printed text comes back from condensed reading, whatever follows, if and only if it holds no reference and is empty or has no leading, trailing or doubled blank and, in UTF-8, no byte order mark in front |
| XmlExact.KeptTextBack | oscshell2012 - NOPASSWD/OSCConfig/tinyxmlparser.cpp:584-595 | with white space kept, a printed text comes back if and only if it holds no reference and there is no white space before or behind it |
| XmlExact.LayoutIsKept | oscshell2012 - NOPASSWD/OSCConfig/tinyxmlparser.cpp:584-595 | with white space kept, what is read is exactly the layout before the text, the text, and the layout behind it |
| XmlExact.KeptValue | oscshell2012 - NOPASSWD/OSCConfig/tinyxmlparser.cpp:584-595 | where all references are closed, already the text that is read tells the same, wherever the pointer ends |
| XmlExact.TextValue | oscshell2012 - NOPASSWD/OSCConfig/tinyxmlparser.cpp:596-635 | the same for condensed reading |
| XmlExact.AttributeValue | oscshell2012 - NOPASSWD/OSCConfig/tinyxmlparser.cpp:1392-1463 | the same for attributes |
| XmlExact.CondensedText | oscshell2012 - NOPASSWD/OSCConfig/tinyxmlparser.cpp:596-635 | condensed reading of a printed text gives exactly the text with its leading blanks and byte order marks dropped, runs of blanks made one and trailing blanks dropped, and stops at the tag |
| XmlExact.KeepShrinks | oscshell2012 - NOPASSWD/OSCConfig/tinyxmlparser.cpp:584-595 | reading a printed text either goes beyond what follows it or yields at most as many characters other than white space, and strictly fewer if it holds a reference; with closed references it never goes beyond |
| XmlExact.CondensedShrinks | oscshell2012 - NOPASSWD/OSCConfig/tinyxmlparser.cpp:596-635 | the same for the condensing loop |
| XmlExact.CommentBack | oscshell2012 - NOPASSWD/OSCConfig/tinyxmlparser.cpp:1337-1389 | a comment comes back if and only if the end mark does not occur in it |
| XmlExact.CdataBack | oscshell2012 - NOPASSWD/OSCConfig/tinyxmlparser.cpp:1509-1534 | a CDATA section comes back if and only if its end mark does not occur in it |
| XmlExact.UnknownBack | oscshell2012 - NOPASSWD/OSCConfig/tinyxmlparser.cpp:1275-1307 | an unknown tag comes back if and only if it holds no end bracket |
| XmlExact.NameBack | oscshell2012 - NOPASSWD/OSCConfig/tinyxmlparser.cpp:401-436 | ReadName takes a whole text if and only if it starts and goes on with the characters of names |
| XmlExact.FieldBack | oscshell2012 - NOPASSWD/OSCConfig/tinyxmlparser.cpp:1598-1628 | the value of a declaration field, printed as it stands, is read back if and only if it holds neither a quote nor an ampersand |
| XmlTheorems.NeighbourTextsMerge | oscshell2012 - NOPASSWD/OSCConfig/tinyxml.cpp:1829-1854 | in every layout, condensed reading makes one node of two neighbouring texts: their concatenation, with a blank between them if the printer puts layout there |
| XmlTheorems.NeighbourTextsKept | oscshell2012 - NOPASSWD/OSCConfig/tinyxmlparser.cpp:584-595 | with white space kept they become one text too, with all the layout in it |
| XmlTheorems.NeighboursMatter | oscshell2012 - NOPASSWD/OSCConfig/tinyxmlparser.cpp:1179-1247 | children that are each fit come back together if and only if no two running texts stand side by side and none reads like an end tag: in every layout, mode and depth |
| XmlTheorems.PrettyPrintingAddsWhite | oscshell2012 - NOPASSWD/OSCConfig/tinyxml.cpp:1829-1854 | a concrete document that comes back from stream printing but not from pretty printing when white space is kept |
| XmlTheorems.OnlyReachedIsPrinted | oscshell2012 - NOPASSWD/OSCConfig/tinyxml.cpp:1773-1778 | printing attributes is printing those that Next() reaches, so what follows a nameless one is lost |
| XmlTheorems.NodesBack | oscshell2012 - NOPASSWD/OSCConfig/tinyxmlparser.cpp:704-796 | printed top-level nodes that come back in their order are settled |
| XmlLayout.LayoutDoesNotMatter | oscshell2012 - NOPASSWD/OSCConfig/tinyxmlparser.cpp:314-1247 | a document that no printer wrote: with any runs of blanks, tabs, line feeds, vertical tabs, form feeds and carriage returns, named as characters, between attributes, around the equals sign, at the ends of tags, between nodes and between the words of texts, with either quotes or none, and either form of an empty element, it is parsed into the same nodes without an error when white space is condensed, in every initial encoding |
| XmlLayout.TabInTag | oscshell2012 - NOPASSWD/OSCConfig/tinyxmlparser.cpp:314-1247 | an instance: a tab in front of an attribute, in every initial encoding |
| XmlLayout.GapIsWhite | oscshell2012 - NOPASSWD/OSCConfig/tinyxml.h:290-293 | white space is exactly these six characters |
| XmlLayout.NameCharacters | oscshell2012 - NOPASSWD/OSCConfig/tinyxmlparser.cpp:129-172 | the characters that begin a name and go on in it are the letters of the two alphabets, everything from 127 on and the underscore, and then the digits, hyphen, point and colon |
| XmlLayout.NodesWritten | oscshell2012 - NOPASSWD/OSCConfig/tinyxmlparser.cpp:743-784 | top-level nodes in any layout are read in order |
| XmlLayout.NodeWritten | oscshell2012 - NOPASSWD/OSCConfig/tinyxmlparser.cpp:834-890 | a node in any layout is read, with any text behind it |
| XmlLayout.KidsAhead | oscshell2012 - NOPASSWD/OSCConfig/tinyxmlparser.cpp:1179-1247 | children in any layout are read in order up to the next tag |
| XmlLayout.KidsWritten | oscshell2012 - NOPASSWD/OSCConfig/tinyxmlparser.cpp:1179-1247 | children in any layout are read in order up to the end tag |
| XmlLayout.TextWritten | oscshell2012 - NOPASSWD/OSCConfig/tinyxmlparser.cpp:596-635 | words with any white space between and around them are read with one blank between them |
| XmlLayout.AttrsWritten | oscshell2012 - NOPASSWD/OSCConfig/tinyxmlparser.cpp:1074-1172 | attributes in any layout are read in order |
| XmlLayout.AttrWritten | oscshell2012 - NOPASSWD/OSCConfig/tinyxmlparser.cpp:1392-1463 | one attribute with any gaps and quotes is read |
| XmlLayout.DeclarationWritten | oscshell2012 - NOPASSWD/OSCConfig/tinyxmlparser.cpp:1572-1628 | a declaration with any gaps is read |
| XmlErrors.FirstFlawDecides | oscshell2012 - NOPASSWD/OSCConfig/tinyxmlparser.cpp:704-1463 | behind any nodes, and inside of any open elements with the content read so far, an element breaks off: the result is what was read until then, nested as it was open, and the error of the exit taken: a name that ends the text, a tag that ends the text, a lone slash, a character that begins no name, a missing equals sign, a name used twice, an open quote, a quote inside of a bare value, missing content, and a missing, other or unclosed end tag |
| XmlErrors.TwiceInside | oscshell2012 - NOPASSWD/OSCConfig/tinyxmlparser.cpp:1133-1172 | an instance: an attribute that comes twice, inside of an open element |
| XmlErrors.NestIsRead | oscshell2012 - NOPASSWD/OSCConfig/tinyxmlparser.cpp:1043-1172 | a broken element at any depth ends all the elements around it with its error |
| XmlErrors.BreakIsRead | oscshell2012 - NOPASSWD/OSCConfig/tinyxmlparser.cpp:1043-1172 | one element that breaks off: its node and its error |
| XmlErrors.FlawStops | oscshell2012 - NOPASSWD/OSCConfig/tinyxmlparser.cpp:1074-1172 | each way in which a start tag breaks off behind its attributes ends the attribute loop with its error |
| XmlErrors.TextOutside | oscshell2012 - NOPASSWD/OSCConfig/tinyxmlparser.cpp:743-796 | text behind the nodes ends the document without an error, and text in front of any is the empty-document error |
| XmlErrors.NothingInside | oscshell2012 - NOPASSWD/OSCConfig/tinyxmlparser.cpp:704-796 | a document of nothing but white space is the empty-document error |
| XmlErrors.UnclosedComment | oscshell2012 - NOPASSWD/OSCConfig/tinyxmlparser.cpp:1337-1389 | a comment without its end mark takes the rest of the text, without an error |
| XmlErrors.UnclosedCdata | oscshell2012 - NOPASSWD/OSCConfig/tinyxmlparser.cpp:1509-1534 | so does a CDATA section |
| XmlErrors.UnclosedUnknown | oscshell2012 - NOPASSWD/OSCConfig/tinyxmlparser.cpp:1275-1307 | so does an unknown tag |
| XmlMarks.KindsOfTags | oscshell2012 - NOPASSWD/OSCConfig/tinyxmlparser.cpp:818-890 | which kind of node a tag begins: a declaration in any case, the other marks exactly, and else an element where a name begins |
| XmlMarks.EncodingInForce | oscshell2012 - NOPASSWD/OSCConfig/tinyxmlparser.cpp:767-783 | a declaration fixes an unknown encoding by the name that it gives, in any case, and nothing else changes the encoding |
| XmlMarks.ByteOrderMark | oscshell2012 - NOPASSWD/OSCConfig/tinyxmlparser.cpp:734-745 | a text with the byte order mark is read like the text behind it in UTF-8 |
| XmlMarks.MarkIsFound | oscshell2012 - NOPASSWD/OSCConfig/tinyxmlparser.cpp:734-745 | the mark is remembered exactly if the encoding was unknown and the text begins with it |
| XmlMarks.DeclarationInAnyOrder | oscshell2012 - NOPASSWD/OSCConfig/tinyxmlparser.cpp:1572-1628 | the fields of a declaration are read in any order and any case, anything between them is passed over, and of two fields of a name the last counts |
| XmlReferences.NumericReference | oscshell2012 - NOPASSWD/OSCConfig/tinyxmlparser.cpp:448-511 | a decimal or hexadecimal reference of any length, with digits of either case, stands for its number modulo 2 to the 32 |
| XmlReferences.LastMarkCounts | oscshell2012 - NOPASSWD/OSCConfig/tinyxmlparser.cpp:464-477 | in a hexadecimal reference only what is behind the last x counts |
| XmlReferences.BrokenReference | oscshell2012 - NOPASSWD/OSCConfig/tinyxmlparser.cpp:448-511 | a reference with anything but digits in it, or without a semicolon, ends reading |
| XmlReferences.OtherAmpersand | oscshell2012 - NOPASSWD/OSCConfig/tinyxmlparser.cpp:513-530 | an ampersand that begins no reference is dropped |
| XmlSamples.PrintedSample | oscshell2012 - NOPASSWD/OSCConfig/tinyxml.cpp:1756-1885 | a document with every kind of node, and line by line what is printed for it in every style |
| XmlSamples.PrintedCharacter | oscshell2012 - NOPASSWD/OSCConfig/tinyxml.cpp:83-131 | how every single character is printed |
| XmlSamples.EncodedIsSafe | oscshell2012 - NOPASSWD/OSCConfig/tinyxml.cpp:52-131 | in the printed form of a text without references nothing can end a text or a value, and no control character occurs |
| XmlSamples.ReferencesPass | oscshell2012 - NOPASSWD/OSCConfig/tinyxml.cpp:60-82 | a hexadecimal reference up to its semicolon is printed as it stands |
| XmlSamples.OthersAreEncoded | oscshell2012 - NOPASSWD/OSCConfig/tinyxml.cpp:83-87 | any other ampersand is encoded |
| XmlRange.DocumentInRange | oscshell2012 - NOPASSWD/OSCConfig/tinyxmlparser.cpp:704-796 | whatever text is parsed without an error, the nodes are shaped: so these conditions are necessary |
| XmlRange.NodesInRange | oscshell2012 - NOPASSWD/OSCConfig/tinyxmlparser.cpp:743-784 | the top-level loop appends shaped nodes, none of them running text |
| XmlRange.ContentInRange | oscshell2012 - NOPASSWD/OSCConfig/tinyxmlparser.cpp:1179-1247 | on any text, pointer and start, running texts never stand side by side among the children that are read, even if an error comes later; without an error all children are shaped |
| XmlRange.NodeInRange | oscshell2012 - NOPASSWD/OSCConfig/tinyxmlparser.cpp:834-890 | any node that is read at a tag without an error is shaped and is no running text |
| XmlRange.ElementInRange | oscshell2012 - NOPASSWD/OSCConfig/tinyxmlparser.cpp:1043-1176 | an element that is read without an error has a good name, attributes with different good names, and shaped children |
| XmlRange.AttrsInRange | oscshell2012 - NOPASSWD/OSCConfig/tinyxmlparser.cpp:1074-1172 | the attribute loop only appends, and collects different good names; every bad tag records an error |
| XmlRange.RunStopsAtTag | oscshell2012 - NOPASSWD/OSCConfig/tinyxmlparser.cpp:1536-1545 | running text always ends in front of a tag |
| XmlRange.CommentInRange | oscshell2012 - NOPASSWD/OSCConfig/tinyxmlparser.cpp:1337-1389 | a comment never holds its end mark |
| XmlRange.CdataInRange | oscshell2012 - NOPASSWD/OSCConfig/tinyxmlparser.cpp:1509-1534 | a CDATA section never holds its end mark |
| XmlRange.UnknownInRange | oscshell2012 - NOPASSWD/OSCConfig/tinyxmlparser.cpp:1275-1307 | an unknown tag never holds a bracket, and reads as an unknown tag again when it is printed |
| XmlRange.DeclarationInRange | oscshell2012 - NOPASSWD/OSCConfig/tinyxmlparser.cpp:1572-1629 | the fields of a declaration never hold a NUL, even one that a reference stands for |
| XmlBack.NodeBack | oscshell2012 - NOPASSWD/OSCConfig/tinyxmlparser.cpp:834-890 | a printed node that is read as itself is settled, whatever follows it and wherever the pointer ends |
| XmlBack.ElementBack | oscshell2012 - NOPASSWD/OSCConfig/tinyxmlparser.cpp:1043-1176 | the same for an element: its values hold no references and its children are settled |
| XmlBack.KidsBack | oscshell2012 - NOPASSWD/OSCConfig/tinyxmlparser.cpp:1179-1247 | printed children that come back in their order are settled: the first one read differently would be seen in the list |
| XmlBack.RunBack | oscshell2012 - NOPASSWD/OSCConfig/tinyxmlparser.cpp:1188-1213 | a running text that comes back as the next child holds no reference, is tight, or stands without layout |
| XmlBack.AttrsBack | oscshell2012 - NOPASSWD/OSCConfig/tinyxmlparser.cpp:1074-1172 | printed attributes that come back hold no references |
| XmlTheorems.ReferenceBreaksTheTag | oscshell2012 - NOPASSWD/OSCConfig/tinyxml.cpp:60-82 | a concrete attribute value with a hexadecimal reference that prints to something the attribute parser rejects |
| XmlRoundTrip.NodeIsRead | oscshell2012 - NOPASSWD/OSCConfig/tinyxmlparser.cpp:1043-1176 | one printed node of any kind and depth, followed by anything, is identified by its kind and read back with the pointer right behind it |
| XmlRoundTrip.KidsAreRead | oscshell2012 - NOPASSWD/OSCConfig/tinyxmlparser.cpp:1179-1247 | the printed children of an element, with the layout around them, are read back in order up to the end tag |
| XmlRoundTrip.AttrsAreRead | oscshell2012 - NOPASSWD/OSCConfig/tinyxmlparser.cpp:1074-1172 | printed attributes with different names are read back in order by the attribute loop |
| XmlRoundTrip.AttrIsRead | oscshell2012 - NOPASSWD/OSCConfig/tinyxmlparser.cpp:1392-1463 | a printed attribute is read back with either kind of quote, and the pointer stops right behind the quote |
| XmlRoundTrip.DeclarationIsRead | oscshell2012 - NOPASSWD/OSCConfig/tinyxmlparser.cpp:1572-1629 | a printed declaration is recognised and read back, with any of its three fields left out |
| XmlRoundTrip.CommentIsRead | oscshell2012 - NOPASSWD/OSCConfig/tinyxmlparser.cpp:1337-1389 | a comment is read back if the end mark does not occur in it |
| XmlRoundTrip.CdataIsRead | oscshell2012 - NOPASSWD/OSCConfig/tinyxmlparser.cpp:1509-1534 | a CDATA section is read back if its end mark does not occur in it; the pointer is null where nothing follows |
| XmlRoundTrip.UnknownIsRead | oscshell2012 - NOPASSWD/OSCConfig/tinyxmlparser.cpp:1275-1307 | an unknown tag without an end bracket inside is read back |
| XmlRoundTrip.RawLengthIs | oscshell2012 - NOPASSWD/OSCConfig/tinyxmlparser.cpp:1379-1384 | raw text is read exactly up to the end mark that follows it, even where the mark could begin inside the text |
| XmlRoundTrip.RunIsRead | oscshell2012 - NOPASSWD/OSCConfig/tinyxmlparser.cpp:1188-1213 | running text between white space is read as one node by ReadValue, in both white-space modes |
| XmlRoundTrip.NameIsRead | oscshell2012 - NOPASSWD/OSCConfig/tinyxmlparser.cpp:401-436 | ReadName reads a whole name up to the first character that cannot be part of one |
| XmlCodec.CodecRoundTrip | oscshell2012 - NOPASSWD/OSCConfig/tinyxml.cpp:52-133 | decoding an encoded text gives it back if and only if no hexadecimal reference starts in it, in every encoding |
| XmlCodec.DecodeEncoded | oscshell2012 - NOPASSWD/OSCConfig/tinyxmlparser.cpp:438-531 | without references, decoding undoes encoding, in UTF-8 for text of whole characters too |
| XmlCodec.DecodeShrinks | oscshell2012 - NOPASSWD/OSCConfig/tinyxml.cpp:60-82 | decoding an encoded text never gives more characters other than white space, and strictly fewer if a reference was passed through |
| XmlCodec.ReferenceOut | oscshell2012 - NOPASSWD/OSCConfig/tinyxmlparser.cpp:444-514 | a passed-through reference yields fewer solid characters than it holds, up to four bytes in UTF-8, also where the last character of the text ends it |
| XmlCodec.KeepPart | oscshell2012 - NOPASSWD/OSCConfig/tinyxmlparser.cpp:584-595 | reading an encoded text with its white space kept gives the text back and goes on right behind it |
| XmlCodec.CondensedPart | oscshell2012 - NOPASSWD/OSCConfig/tinyxmlparser.cpp:598-632 | the condensing loop over an encoded text, with the blank that is pending before and behind it |
| XmlCodec.ReadKeepEncoded | oscshell2012 - NOPASSWD/OSCConfig/tinyxmlparser.cpp:584-595 | the loop of ReadText that keeps white space reads an encoded text exactly, up to its end mark |
| XmlCodec.CondensedEncoded | oscshell2012 - NOPASSWD/OSCConfig/tinyxmlparser.cpp:598-632 | the condensing loop of ReadText makes Condense of an encoded text, whatever white space follows |
| XmlCodec.CondenseIsIdentity | oscshell2012 - NOPASSWD/OSCConfig/tinyxmlparser.cpp:598-632 | condensing leaves a text alone if and only if it has no trailing or doubled blank |
| XmlCodec.ControlReference | oscshell2012 - NOPASSWD/OSCConfig/tinyxmlparser.cpp:444-514 | the reference that a control character is printed as is decoded to that character, in 32-bit arithmetic read backwards |
| XmlCodec.NamedReference | oscshell2012 - NOPASSWD/OSCConfig/tinyxmlparser.cpp:517-525 | each of the five named entities is decoded to its character |
| XmlCodec.PassThroughSplit | oscshell2012 - NOPASSWD/OSCConfig/tinyxml.cpp:68-82 | raw copying goes up to the first ';' or the last character, and encoding goes on from there |
| XmlPrinter.EncodeString | oscshell2012 - NOPASSWD/OSCConfig/tinyxml.cpp:52-133 | the loop appends exactly Encode of its input to whatever the output held |
| XmlPrinter.CopyReference | oscshell2012 - NOPASSWD/OSCConfig/tinyxml.cpp:70-80 | the inner loop copies a reference and stops at its ';' or one character before the end |
| XmlPrinter.TiXmlPrinter.Accept | oscshell2012 - NOPASSWD/OSCConfig/tinyxml.cpp:875-886 | the walk over a node appends exactly its printed text and restores depth and mode |
| XmlPrinter.TiXmlPrinter.AcceptKids | oscshell2012 - NOPASSWD/OSCConfig/tinyxml.cpp:879-883 | the loop over the children appends their texts in order |
| XmlPrinter.TiXmlPrinter.AcceptDocument | oscshell2012 - NOPASSWD/OSCConfig/tinyxml.cpp:1156-1167 | a fresh printer ends with the printed text of the whole document, at depth zero |
| XmlPrinter.TiXmlPrinter.VisitEnter | oscshell2012 - NOPASSWD/OSCConfig/tinyxml.cpp:1766-1800 | the start tag, the mode for a single text, and the depth |
| XmlPrinter.TiXmlPrinter.VisitExit | oscshell2012 - NOPASSWD/OSCConfig/tinyxml.cpp:1803-1826 | the end tag, on the same line in simple mode, and the mode left behind |
| XmlPrinter.TiXmlPrinter.VisitText | oscshell2012 - NOPASSWD/OSCConfig/tinyxml.cpp:1829-1854 | CDATA, simple and indented text |
| XmlPrinter.TiXmlPrinter.VisitDeclaration | oscshell2012 - NOPASSWD/OSCConfig/tinyxml.cpp:1857-1863 | a declaration without its empty fields |
| XmlPrinter.TiXmlPrinter.PrintAttributes | oscshell2012 - NOPASSWD/OSCConfig/tinyxml.cpp:1773-1778 | the attributes that Next() reaches, each behind a blank |
| XmlPrinter.TiXmlPrinter.PrintAttribute | oscshell2012 - NOPASSWD/OSCConfig/tinyxml.cpp:1210-1233 | the quote is chosen by the value up to its first NUL |
| XmlPrinter.TiXmlPrinter.DoIndent | oscshell2012 - NOPASSWD/OSCConfig/tinyxml.h:1785-1788 | the indent once for every level |
| XmlParser.ParseAttribute | oscshell2012 - NOPASSWD/OSCConfig/tinyxmlparser.cpp:1392-1463 | the pointer returned is null or strictly behind the start, and never behind the terminator; it is not null only where no error is recorded |
| XmlParser.ParseAttributes | oscshell2012 - NOPASSWD/OSCConfig/tinyxmlparser.cpp:1074-1172 | the attribute loop ends, strictly behind its start |
| XmlParser.ParseElement | oscshell2012 - NOPASSWD/OSCConfig/tinyxmlparser.cpp:1043-1176 | recursion over elements ends: the pointer is null or strictly behind the start |
| XmlParser.ReadValue | oscshell2012 - NOPASSWD/OSCConfig/tinyxmlparser.cpp:1179-1247 | the content loop ends and never leaves the buffer |
| XmlParser.ParseNode | oscshell2012 - NOPASSWD/OSCConfig/tinyxmlparser.cpp:818-899 | progress for every kind of node |
| XmlParser.ParseDeclarationLoop | oscshell2012 - NOPASSWD/OSCConfig/tinyxmlparser.cpp:1598-1628 | progress of the declaration loop, and no error from its detached attributes |
| XmlParser.ParseNodes | oscshell2012 - NOPASSWD/OSCConfig/tinyxmlparser.cpp:748-787 | progress of the document loop; nodes once read are kept |
| XmlParser.RawLength | oscshell2012 - NOPASSWD/OSCConfig/tinyxmlparser.cpp:1379-1384 | the first place where the end mark occurs, or the terminator |
| XmlText.GetEntity | oscshell2012 - NOPASSWD/OSCConfig/tinyxmlparser.cpp:438-531 | an entity moves the pointer strictly on or yields null without output |
| XmlText.ReadText | oscshell2012 - NOPASSWD/OSCConfig/tinyxmlparser.cpp:574-637 | the pointer returned is null or strictly behind the start, and never at the terminator |
| XmlText.SkipWhiteSpace | oscshell2012 - NOPASSWD/OSCConfig/tinyxmlparser.cpp:314-362 | null for null and for the terminator only; otherwise a later pointer in the same buffer |
| XmlText.Find | oscshell2012 - NOPASSWD/OSCConfig/tinyxmlparser.cpp:460-464 | strchr: the first occurrence, or none |
| XmlReader.SkipWhiteSpace | oscshell2012 - NOPASSWD/OSCConfig/tinyxmlparser.cpp:314-362 | both loops, with the byte order marks of UTF-8, stop where SkipWhite says |
| XmlReader.ReadName | oscshell2012 - NOPASSWD/OSCConfig/tinyxmlparser.cpp:401-436 | the scanning loop yields the name and the pointer behind it |
| XmlReader.StringEqual | oscshell2012 - NOPASSWD/OSCConfig/tinyxmlparser.cpp:534-572 | both comparison loops decide whether the text starts with the tag |
| XmlReader.ReadDigits | oscshell2012 - NOPASSWD/OSCConfig/tinyxmlparser.cpp:465-510 | the backward walk over the digits, with the multiplier and the sum in 32 bits |
| XmlReader.GetEntity | oscshell2012 - NOPASSWD/OSCConfig/tinyxmlparser.cpp:438-531 | hexadecimal, decimal, named and unrecognised entities |
| XmlReader.MatchEntity | oscshell2012 - NOPASSWD/OSCConfig/tinyxmlparser.cpp:517-525 | the table loop finds the one entity that the text starts with |
| XmlReader.KeepText | oscshell2012 - NOPASSWD/OSCConfig/tinyxmlparser.cpp:584-595 | the loop of ReadText that keeps white space |
| XmlReader.CondenseText | oscshell2012 - NOPASSWD/OSCConfig/tinyxmlparser.cpp:598-632 | the loop of ReadText that condenses white space |
| XmlReader.ReadText | oscshell2012 - NOPASSWD/OSCConfig/tinyxmlparser.cpp:574-637 | either loop, and the step over the end mark |
| XmlReader.ReadRaw | oscshell2012 - NOPASSWD/OSCConfig/tinyxmlparser.cpp:1379-1384 | the raw loops of comments, CDATA sections and unknown tags |
| XmlReader.Blank | oscshell2012 - NOPASSWD/OSCConfig/tinyxmlparser.cpp:1631-1637 | true exactly for text that is all white space |
| XmlDocument.TiXmlDocument.Parse | oscshell2012 - NOPASSWD/OSCConfig/tinyxmlparser.cpp:704-796 | a document object appends exactly the nodes of ParseDocument and ends with its error; a byte order mark is remembered |
| XmlDocument.TiXmlDocument.ParseNodes | oscshell2012 - NOPASSWD/OSCConfig/tinyxmlparser.cpp:748-787 | the document loop, with the change of encoding after a declaration |
| XmlDocument.TiXmlDocument.ReadValue | oscshell2012 - NOPASSWD/OSCConfig/tinyxmlparser.cpp:1179-1247 | the content loop computes the children, the pointer and the first error of the recursive specification |
| XmlDocument.TiXmlDocument.ParseElement | oscshell2012 - NOPASSWD/OSCConfig/tinyxmlparser.cpp:1043-1176 | name, attributes, content and end tag |
| XmlDocument.TiXmlDocument.ParseAttributes | oscshell2012 - NOPASSWD/OSCConfig/tinyxmlparser.cpp:1074-1172 | the attribute loop with its five ways out |
| XmlDocument.TiXmlDocument.ParseAttribute | oscshell2012 - NOPASSWD/OSCConfig/tinyxmlparser.cpp:1392-1463 | an attribute, and its error only if it is linked to the document |
| XmlDocument.TiXmlDocument.ParseDeclaration | oscshell2012 - NOPASSWD/OSCConfig/tinyxmlparser.cpp:1572-1629 | a declaration, whose fields may come in any order among other text and are taken as C strings |
| XmlDocument.TiXmlDocument.ParseComment | oscshell2012 - NOPASSWD/OSCConfig/tinyxmlparser.cpp:1337-1389 | a comment |
| XmlDocument.TiXmlDocument.ParseCdata | oscshell2012 - NOPASSWD/OSCConfig/tinyxmlparser.cpp:1509-1534 | a CDATA section |
| XmlDocument.TiXmlDocument.ParseRun | oscshell2012 - NOPASSWD/OSCConfig/tinyxmlparser.cpp:1536-1545 | running text, which leaves the '<' in place |
| XmlDocument.TiXmlDocument.ParseUnknown | oscshell2012 - NOPASSWD/OSCConfig/tinyxmlparser.cpp:1275-1307 | an unknown tag |
| XmlDocument.TiXmlDocument.Identify | oscshell2012 - NOPASSWD/OSCConfig/tinyxmlparser.cpp:834-890 | the kind of the node at a '<' |
| XmlDocument.TiXmlDocument.SetError | oscshell2012 - NOPASSWD/OSCConfig/tinyxmlparser.cpp:798-815 | the first error is kept |
| XmlDom.TiXmlNode.LinkEndChild | oscshell2012 - NOPASSWD/OSCConfig/tinyxml.cpp:186-211 | a document is refused and the nearest document above records the error; any other separate tree becomes the last child of a tree that is still well formed |
| XmlDom.TiXmlNode.GetDocument | oscshell2012 - NOPASSWD/OSCConfig/tinyxml.cpp:512-522 | the walk along the parents ends at the nearest document |
| XmlDom.TiXmlNode.Refuse | oscshell2012 - NOPASSWD/OSCConfig/tinyxmlparser.cpp:798-815 | the nearest document above keeps its first error or records this one; no other node changes, and trees stay well formed |
| XmlDom.RefusingRecords | oscshell2012 - NOPASSWD/OSCConfig/tinyxml.cpp:190-197 | the first document on the way up takes error 15 without a place, unless it has an error already, and nothing else changes |
| XmlDom.TiXmlNode.InsertEndChild | oscshell2012 - NOPASSWD/OSCConfig/tinyxml.cpp:214-227 | a fresh copy becomes the last child; a document is refused and the error recorded |
| XmlDom.TiXmlNode.InsertBeforeChild | oscshell2012 - NOPASSWD/OSCConfig/tinyxml.cpp:230-260 | a fresh copy stands in front of the child and the list is the old one with it inserted there; null exactly for no child, a stranger or a document, and the error is recorded exactly for a document |
| XmlDom.TiXmlNode.InsertAfterChild | oscshell2012 - NOPASSWD/OSCConfig/tinyxml.cpp:263-293 | a fresh copy stands behind the child |
| XmlDom.TiXmlNode.ReplaceChild | oscshell2012 - NOPASSWD/OSCConfig/tinyxml.cpp:296-332 | a fresh copy takes the place of the child, and the others stay in order |
| XmlDom.TiXmlNode.RemoveChild | oscshell2012 - NOPASSWD/OSCConfig/tinyxml.cpp:335-359 | the list without the child; false exactly for no child or a stranger |
| XmlDom.TiXmlNode.Clear | oscshell2012 - NOPASSWD/OSCConfig/tinyxml.cpp:169-183 | no children are left |
| XmlDom.TiXmlNode.FirstChild | oscshell2012 - NOPASSWD/OSCConfig/tinyxml.cpp:361-370 | the first child with the value, compared as C strings, or null if there is none |
| XmlDom.TiXmlNode.Clone | oscshell2012 - NOPASSWD/OSCConfig/tinyxml.cpp:889-897 | a tree of new nodes only, well formed, equal to Copied of the tree with user data and locations, and detached |
| XmlDom.TiXmlNode.CopyTo | oscshell2012 - NOPASSWD/OSCConfig/tinyxml.cpp:853-873 | the target takes the value and the attributes as C strings, the rest of the data whole (with the error and settings of a document), user data and location, and copies of the children; nothing else changes |
| XmlDom.CopyIsEqual | oscshell2012 - NOPASSWD/OSCConfig/tinyxml.cpp:853-873 | a copy equals its original if and only if no value, attribute name or attribute value holds a NUL, attribute names are distinct, no attribute after the first is empty, and only elements and documents have children |
| XmlDom.DataIsEqual | oscshell2012 - NOPASSWD/OSCConfig/tinyxml.cpp:161-166 | the same for what one node carries: values and attributes go through C strings, the fields of a declaration do not |
| XmlDom.AttrsEqual | oscshell2012 - NOPASSWD/OSCConfig/tinyxml.cpp:860-866 | attributes are copied equal if and only if their names are distinct, none holds a NUL, and Next() reaches them all |
| XmlTheorems.CloneCutsAtNul | oscshell2012 - NOPASSWD/OSCConfig/tinyxml.cpp:161-166 | a text with a NUL that is read from an ordinary document and comes back from printing, but is cut by Clone |
| XmlDom.AttrsCopied | oscshell2012 - NOPASSWD/OSCConfig/tinyxml.cpp:860-866 | copied attributes always have distinct names and hold no NUL; from distinct names they are the reached attributes in their order, cut at NUL |
| XmlDom.CopyAttributes | oscshell2012 - NOPASSWD/OSCConfig/tinyxml.cpp:860-866 | the copying loop, by SetAttribute with names and values as C strings |
| XmlDom.SetAttrKeeps | oscshell2012 - NOPASSWD/OSCConfig/tinyxml.cpp:780-786 | setting an attribute keeps names distinct as C strings and in order, and adds at most one at the end |
| XmlDom.ReachedIsPrefix | oscshell2012 - NOPASSWD/OSCConfig/tinyxml.cpp:1170-1177 | Next() reaches a prefix of the attributes, all of them exactly if none after the first is empty |
| XmlDom.ChainSplit | oscshell2012 - NOPASSWD/OSCConfig/tinyxml.cpp:186-359 | a doubly linked stretch is well formed if and only if its two halves are, each with the other as neighbour |
| XmlDomInside.LinkedByParts | oscshell2012 - NOPASSWD/OSCConfig/tinyxml.cpp:186-359 | all links of a tree are right if and only if those around any tree inside it and those of that inner tree are |
| XmlDomInside.EnterInside | oscshell2012 - NOPASSWD/OSCConfig/tinyxml.cpp:186-359 | every tree inside a well-formed tree is well formed, and shares no link with what is around it |
| XmlDomInside.LeaveInside | oscshell2012 - NOPASSWD/OSCConfig/tinyxml.cpp:186-359 | a well-formed tree made of an inner tree's nodes and new ones can stand in its place, and the whole is well formed |
| XmlDomInside.LinkEndChildInside | oscshell2012 - NOPASSWD/OSCConfig/tinyxml.cpp:186-211 | linking a child at any node, however deep, keeps the whole tree well formed; refusing a document changes no shape |
| XmlDomInside.InsertBeforeChildInside | oscshell2012 - NOPASSWD/OSCConfig/tinyxml.cpp:230-260 | the same for inserting a copy in front of a child anywhere |
| XmlDomInside.InsertAfterChildInside | oscshell2012 - NOPASSWD/OSCConfig/tinyxml.cpp:263-293 | the same for inserting behind |
| XmlDomInside.ReplaceChildInside | oscshell2012 - NOPASSWD/OSCConfig/tinyxml.cpp:296-332 | the same for replacing |
| XmlDomInside.RemoveChildInside | oscshell2012 - NOPASSWD/OSCConfig/tinyxml.cpp:335-359 | the same for removing |
| XmlDomInside.ClearInside | oscshell2012 - NOPASSWD/OSCConfig/tinyxml.cpp:169-183 | the same for clearing |
| XmlAttributeSet.TiXmlAttributeSet.Add | oscshell2012 - NOPASSWD/OSCConfig/tinyxml.cpp:1514-1527 | the ring around the sentinel with the attribute behind all others |
| XmlAttributeSet.TiXmlAttributeSet.Remove | oscshell2012 - NOPASSWD/OSCConfig/tinyxml.cpp:1529-1545 | the ring without the attribute, the others in order, and its links cleared |
| XmlAttributeSet.TiXmlAttributeSet.Find | oscshell2012 - NOPASSWD/OSCConfig/tinyxml.cpp:1572-1580 | an attribute with the name, compared as C strings, or null if there is none |
| XmlAttributeSet.TiXmlAttributeSet.FindOrCreate | oscshell2012 - NOPASSWD/OSCConfig/tinyxml.cpp:1583-1592 | an attribute with the name, new and last if there was none; names stay distinct |
| XmlAttributeSet.TiXmlAttributeSet.SetAttribute | oscshell2012 - NOPASSWD/OSCConfig/tinyxml.cpp:780-786 | the ring changes exactly as the sequence of its attributes does under SetAttr |
| XmlString.TiXmlString.Append | oscshell2012 - NOPASSWD/OSCConfig/tinystr.cpp:68-78 | the contents grow by the text, the NUL and the bound on capacity stay, and copied characters stay within the capacity |
| XmlString.TiXmlString.Reserve | oscshell2012 - NOPASSWD/OSCConfig/tinystr.cpp:37-46 | the same contents in a buffer of the wanted capacity, or no change |
| XmlString.TiXmlString.Assign | oscshell2012 - NOPASSWD/OSCConfig/tinystr.cpp:49-65 | the contents become the text, and the capacity is at most three times the length plus 24 |
| XmlString.TiXmlString.Find | oscshell2012 - NOPASSWD/OSCConfig/tinystr.h:173-182 | the first occurrence in front of any NUL |
| XmlString.AppendAll | oscshell2012 - NOPASSWD/OSCConfig/tinystr.cpp:68-78 | any number of appends to a new string: concatenation, copied characters at most the capacity, capacity below twice the length |
| XmlCursor.TiXmlParsingData.Stamp | oscshell2012 - NOPASSWD/OSCConfig/tinyxmlparser.cpp:196-311 | the loop over the text computes Run wherever it comes to an end (Smooth); a tab size below one or a mark behind the terminator changes nothing |
| XmlCursor.MarksDoNotMatter | oscshell2012 - NOPASSWD/OSCConfig/tinyxmlparser.cpp:196-311 | any increasing marks leave the place that the last one alone leaves, even inside a two-character line end |
| XmlCursor.RowIsLineCount | oscshell2012 - NOPASSWD/OSCConfig/tinyxmlparser.cpp:196-311 | on text of whole characters without carriage returns the loop ends, and the row grows by exactly the line feeds before the mark |
| XmlCursor.ColumnsCount | oscshell2012 - NOPASSWD/OSCConfig/tinyxmlparser.cpp:285-302 | inside of a line the column goes up by one for each character, however many bytes it has |
| XmlCursor.LineEndResets | oscshell2012 - NOPASSWD/OSCConfig/tinyxmlparser.cpp:224-252 | behind a line end of one or of two characters the column is zero and the row one more |
| XmlCursor.TabStops | oscshell2012 - NOPASSWD/OSCConfig/tinyxmlparser.cpp:253-260 | a tab takes the column to the next multiple of the tab size |
| XmlCursor.MarksTakeNoColumn | oscshell2012 - NOPASSWD/OSCConfig/tinyxmlparser.cpp:261-284 | a byte order mark takes no column in UTF-8 |
| XmlCursor.NormaliseNewlines | oscshell2012 - NOPASSWD/OSCConfig/tinyxml.cpp:1045-1074 | the in-place loop leaves exactly the normalised text and its NUL, with the write head never ahead |
| XmlCursor.NormalIsIdentity | oscshell2012 - NOPASSWD/OSCConfig/tinyxml.cpp:1052-1070 | normalising leaves a text alone if and only if it has no carriage return |
| XmlCursor.LineEndsBecomeOne | oscshell2012 - NOPASSWD/OSCConfig/tinyxml.cpp:1052-1070 | lines that end in any of the three ways are normalised to the lines with one line feed each |
| Utf8.Utf8RoundTrip | oscshell2012 - NOPASSWD/OSCConfig/tinyxmlparser.cpp:66-126 | any code points up to 0x10FFFF, encoded one behind the other, are cut apart by the byte table and read back |
| Utf8.AllCharacters | oscshell2012 - NOPASSWD/OSCConfig/tinyxmlparser.cpp:66-85 | stepping by the byte table lands exactly on the boundaries of the encoded characters |
| Utf8.OneCharacter | oscshell2012 - NOPASSWD/OSCConfig/tinyxmlparser.cpp:88-126 | the lead byte tells the length, the rest are continuation bytes, none is NUL, and together they are the code point |
| Utf8.KnownCharacters | oscshell2012 - NOPASSWD/OSCConfig/tinyxmlparser.cpp:88-126 | the examples of section 7 of RFC 3629, the borders of the four lengths, and nothing beyond them |
| Utf8.LeadBytes | oscshell2012 - NOPASSWD/OSCConfig/tinyxmlparser.cpp:66-85 | the byte table has an entry above one exactly for the bytes that begin the encoding of some code point beyond ASCII |
| Utf8.ConvertUTF32ToUTF8 | oscshell2012 - NOPASSWD/OSCConfig/tinyxmlparser.cpp:88-126 | the backward fall-through writes exactly the encoding and nothing behind it |
| Utf8.ContinuationBits | oscshell2012 - NOPASSWD/OSCConfig/tinyxmlparser.cpp:108-122 | the bit operations of a continuation byte are the low six bits under the mark |
| Utf8.LeadBits | oscshell2012 - NOPASSWD/OSCConfig/tinyxmlparser.cpp:94-124 | or-ing the mark of a lead byte with the remaining bits is adding them |
| DesTheorems.DecryptEncrypt | DBRecord/datasafe.h:34-76 | deciphering undoes enciphering for every key and block |
| DesTheorems.EncryptDecrypt | DBRecord/datasafe.h:34-76 | enciphering undoes deciphering for every key and block |
| DesTheorems.RoundsUndone | DBRecord/datasafe.h:34-76 | the rounds under reversed keys undo the rounds, for any round function |
| DesTheorems.FinalOfInitial | DBRecord/datasafe.h:212-236 | the final permutation undoes the initial one |
| DesTheorems.InitialOfFinal | DBRecord/datasafe.h:212-236 | the initial permutation undoes the final one |
| DesTheorems.TablesInverse | DBRecord/datasafe.h:192-210 | the two permutation tables are inverse to each other |
| DesTheorems.CompressExpand | DBRecord/datasafe.h:79-111 | packing undoes unpacking of bits |
| DesTheorems.ExpandCompress | DBRecord/datasafe.h:79-111 | unpacking undoes packing of bits |
| DesTheorems.EncryptComplement | DBRecord/datasafe.h:20-54 | complementing key and plaintext complements the ciphertext |
| DesTheorems.ScheduleIsRotation | DBRecord/datasafe.h:152-167 | every key half is the first one rotated by the running sum of shifts |
| DesTheorems.ScheduleCloses | DBRecord/datasafe.h:149-167 | after sixteen rounds the halves are back where they began |
| DesTheorems.WeakKeyIsInvolution | DBRecord/datasafe.h:149-191 | where both halves are constant, enciphering twice is the identity |
| DesTheorems.WeakSubKeys | DBRecord/datasafe.h:149-191 | where both halves are constant, all round keys are equal |
| DesWords.EncryptIsWords | DBRecord/datasafe.h:20-335 | for every key and text the cipher over bit lists and tables is a cipher on machine words, in which each S-box is given by its four truth tables and each permutation by shifts |
| DesAnswers.KnownAnswers | DBRecord/datasafe.h:20-335 | the nineteen pairs of NBS Special Publication 500-20 that exercise every entry of every S-box |
| DesAnswers.BytesInOrder | DBRecord/datasafe.h:79-94 | the first byte of a block is the heaviest of the number that it is written as |
| DesDesign.RowsArePermutations | DBRecord/datasafe.h:250-289 | every row of every S-box holds each number from 0 to 15 exactly once |
| DesDesign.OneBitTwoBits | DBRecord/datasafe.h:250-289 | inputs of an S-box that differ in one bit have outputs that differ in at least two |
| DesMachine.Keys.SetKeyStar | DBRecord/datasafe.h:152-167 | the global arrays hold the whole key schedule of the bits |
| DesMachine.Keys.F | DBRecord/datasafe.h:291-312 | one round over the bit arrays |
| DesMachine.Keys.Encrypt0 | DBRecord/datasafe.h:34-54 | sixteen rounds in order, in place in a buffer, and nothing outside the block changes |
| DesMachine.Keys.Discrypt0 | DBRecord/datasafe.h:56-76 | sixteen rounds in reverse order |
| DesMachine.Keys.DES | DBRecord/datasafe.h:20-25 | schedule and enciphering, with text and result in the same array or not |
| DesMachine.Keys.UnDES | DBRecord/datasafe.h:27-32 | schedule and deciphering |
| DesMachine.SBox0To7 | DBRecord/datasafe.h:314-335 | the S-box loops over six-bit groups |
| DesMachine.Expand0 | DBRecord/datasafe.h:79-94 | unpacking a block into bits |
| DesMachine.Compress0 | DBRecord/datasafe.h:96-110 | packing bits into a block |
| DesMachine.Ip | DBRecord/datasafe.h:212-224 | the initial permutation into two halves |
| DesMachine.Fp | DBRecord/datasafe.h:226-236 | the final permutation |
| PasswordSpec.PasswordRoundTrip | DBRecord/datasafe.h:754-821 | a NUL-free password comes back from any length if and only if the random bytes that pad its last record hold no NUL, and then the length of the cipher text is 44 for every 16 bytes plus 0, 28 or 44 |
| PasswordSpec.RecordRoundTrip | DBRecord/datasafe.h:680-752 | one record: 28 characters up to eight bytes and 44 above, and its text comes back |
| PasswordSpec.CutRecordIsLost | DBRecord/datasafe.h:680-718 | a NUL in the pad leaves a record of 16 characters, which no length test accepts |
| PasswordSpec.SssRoundTrip | DBRecord/datasafe.h:343-438 | in all four cases of key and input length deciphering gives the input back, and all other lengths are refused |
| PasswordSpec.SingleKeyCollapses | DBRecord/datasafe.h:343-438 | with an 8-byte key and two blocks the cascade is plain DES on each block |
| PasswordSpec.HexRoundTrip | DBRecord/datasafe.h:551-611 | hex text decodes to the bytes and has no NUL |
| PasswordAnswers.HexDigits | DBRecord/datasafe.h:590-604 | a byte is written as two capital digits, the upper half first |
| PasswordAnswers.DigitsAreRead | DBRecord/datasafe.h:551-588 | digits are read in both cases, and nothing else |
| PasswordAnswers.LengthDigits | DBRecord/datasafe.h:638-675 | the digit for a length, and which characters are read as that length: the capital digits and, of the small letters, d to i |
| PasswordAnswers.BlockByBlock | DBRecord/datasafe.h:343-389 | each block is ciphered by itself: with one key by that key, with two by enciphering with the first, deciphering with the second and enciphering with the first |
| PasswordAnswers.RecordFormat | DBRecord/datasafe.h:680-718 | the parts of a record: under the fixed key, given as text, three random bytes, the length digit and four digits of the cipher text; then the other digits |
| PasswordAnswers.SecretIsStored | DBRecord/datasafe.h:680-821 | a password of six characters and the 28 characters that it is stored as, for given random bytes |
| PasswordAnswers.LongPasswordIsStored | DBRecord/datasafe.h:680-821 | a password of twelve characters and the 44 characters that it is stored as |
| PasswordAnswers.NoDigitsAreZeros | DBRecord/datasafe.h:551-636 | text that is not all digits is deciphered as if it were zero bytes |
| PasswordMachine.SssDES | DBRecord/datasafe.h:343-389 | the four branches in place on arrays |
| PasswordMachine.UnSssDES | DBRecord/datasafe.h:391-438 | the four branches of deciphering |
| PasswordMachine.AscToBcd | DBRecord/datasafe.h:551-588 | hex digits to bytes, with the error for any other character |
| PasswordMachine.BcdToAsc | DBRecord/datasafe.h:590-604 | bytes to capital hex digits with a NUL |
| PasswordMachine.RandomDES | DBRecord/datasafe.h:680-718 | a buffer with exactly the record for the text and the draw |
| PasswordMachine.UnRandomDES | DBRecord/datasafe.h:720-752 | a buffer with exactly the text of a record; other lengths do nothing |
| PasswordMachine.EncryptText | DBRecord/datasafe.h:789-821 | the loops over 16-byte chunks append the records of the whole text |
| PasswordMachine.DecryptText | DBRecord/datasafe.h:754-787 | the loops over 44-byte chunks append the text of all records |
| Wildcard.WildcardCompare | oscshell2012 - NOPASSWD/IEHelper/StringHelper.cpp:78-136 | true exactly if the pattern matches some prefix of the text, by a single last-star backtracking loop that ends |
| Wildcard.WildcardCompareNoCase | oscshell2012 - NOPASSWD/IEHelper/StringHelper.cpp:18-76 | true exactly if the pattern matches some prefix of the text where a letter stands for its small and its capital form, the pairs taken from the two alphabets letter by letter |
| Wildcard.PrefixIsMatchesPrefix | oscshell2012 - NOPASSWD/IEHelper/StringHelper.cpp:78-136 | the recursive form of the relation agrees with the declarative glob relation on prefixes |
| Wildcard.UpperIsSameLetter | oscshell2012 - NOPASSWD/IEHelper/StringHelper.cpp:29-35 | upper-casing makes two characters equal exactly if they are the same or the two forms of one letter |
| Wildcard.CaseDoesNotMatter | oscshell2012 - NOPASSWD/IEHelper/StringHelper.cpp:18-76 | writing any letters of pattern and text in their other forms does not change the answer |
| Wildcard.OneCharacter | oscshell2012 - NOPASSWD/IEHelper/StringHelper.cpp:25-45 | one character of a pattern fits one of the text exactly if it is a question mark, the same, or the other form of the same letter: so different letters, or a letter and another character, do not fit |
| Wildcard.PatternMeaning | oscshell2012 - NOPASSWD/IEHelper/StringHelper.cpp:78-136 | what star, question mark and any other character at the front of a pattern mean for the whole |
| Wildcard.PlainPattern | oscshell2012 - NOPASSWD/IEHelper/StringHelper.cpp:78-136 | a pattern without wildcards matches exactly the texts that start with it |
| Wildcard.CapitalsAreUpper | DBRecord/DBoperate.c:1790-1793 | the upper-cased text is the only one with each small letter in its capital form and everything else unchanged |
| SqlText.StrSplit | DBRecord/DBoperate.c:1580-1741 | the loops return the code and the pieces of the specification, with -1 for every invalid argument |
| SqlText.FindFront | DBRecord/DBoperate.c:1618-1637 | the search loop finds the front separator |
| SqlText.FrontIsFirst | DBRecord/DBoperate.c:1618-1637 | the front separator starts before all others, and among those that start together it is the first of the list |
| SqlText.SplitLosesNothing | DBRecord/DBoperate.c:1612-1736 | with separators kept, the pieces put together are the text |
| SqlText.CutsAreGood | DBRecord/DBoperate.c:1612-1736 | no separator occurs in a text piece, and every separator piece but the last is one of the list |
| SqlText.FoundIfContained | DBRecord/DBoperate.c:1618-1637 | the code is 1 exactly if a separator occurs in the text |
| SqlText.SplitCodes | DBRecord/DBoperate.c:1595-1611 | -1 and nothing for a missing or empty text, list or separator or a negative flag, 1 where a separator occurs, 0 otherwise |
| SqlText.PlainPieces | DBRecord/DBoperate.c:1612-1736 | with nothing dropped the pieces are text and separator in turn |
| SqlText.CompressedPieces | DBRecord/DBoperate.c:1612-1736 | compressing drops exactly the empty texts |
| SqlText.FindDBTable | DBRecord/DBoperate.c:1742-1774 | 1 exactly if some piece holds the command and the next one the table; in a text that holds none of the four commands, exactly if it holds both anywhere |
| SqlText.CommandThenTable | DBRecord/DBoperate.c:1742-1774 | for one of the four commands: exactly if a piece is that command and the piece right behind it holds the table |
| SqlText.OneCommandPieces | DBRecord/DBoperate.c:1742-1774 | a statement with one occurrence of one of the four commands, named literally, is cut into the text before, the command and the text behind |
| SqlText.OneCommandOnly | DBRecord/DBoperate.c:1742-1774 | in such a statement the search succeeds exactly if command and table stand in neighbouring parts in this order |
| SqlText.KeywordPieces | DBRecord/DBoperate.c:1742-1774 | a piece holds a command if and only if it is that command |
| SqlText.MatchCclItem | DBRecord/DBoperate.c:1775-1837 | for a black list 1 exactly if a line applies to the statement with each small letter put in its capital form, for a white list exactly if none does, and 0 for an empty list |
| SqlText.MatchBothKinds | DBRecord/DBoperate.c:1775-1837 | on every list with lines the two kinds give opposite answers |
| SqlText.MatchTables | DBRecord/DBoperate.c:1811-1824 | the token loop finds a table of the list that the statement touches |
| SqlText.TokensAreStretches | DBRecord/DBoperate.c:1811-1824 | the tokens are exactly the longest stretches without a comma |
| StringsReplace.StringsReplaceFree | DBRecord/dbrecord.c:45-61 | a new buffer of exactly the size of the result and its NUL, filled with the result |
| StringsReplace.StringsReplace | DBRecord/dbrecord.c:82-107 | the loop writes exactly the result and nothing behind it |
| StringsReplace.FindStringsCount | DBRecord/dbrecord.c:63-80 | the number of occurrences from left to right without overlap |
| StringsReplace.ReplaceLength | DBRecord/dbrecord.c:50-53 | the length of the result from the number of occurrences, for shorter and longer replacements |
| StringsReplace.PartsAreWhole | DBRecord/dbrecord.c:82-107 | replacing a needle by itself changes nothing: the parts leave nothing out |
| StringsReplace.PartsLackNeedle | DBRecord/dbrecord.c:82-107 | no part between the occurrences holds the needle |
| StringsReplace.PartsAreTheSplit | DBRecord/dbrecord.c:63-107 | a list of texts is the list of parts if and only if glued with the needle it is the text, and each occurrence glued in is the first one behind the last: there is no other way to cut |
| PolicySearch.FindItem | DBRecord/DBoperate.c:1281-1394 | code 0 exactly if some place has an item, 4 for a search confined to the resource; and row by row: the item is that of the first direct row of the resource, else of the first row of one of its groups, else of the group so many levels above the group in the first row that names the resource, none below having one; in the same terms 5 where there is no such row or the climb ends at a group without a parent, and 6 where it ends at a top without an item |
| PolicySearch.ClimbGroups | DBRecord/DBoperate.c:1343-1386 | where some level above is missing, is a top or has an item, the climb ends; it finds an item exactly if some level that is looked at has one, and without a parent it stops below the tops with no item on the way |
| PolicySearch.AcyclicEnds | DBRecord/DBoperate.c:1343-1386 | on every hierarchy without cycles below its tops, every climb ends; a root that is its own parent is no cycle |
| PolicySearch.NearestIsUnique | DBRecord/DBoperate.c:1343-1386 | at most one level is looked at and has an item |
| PolicySearch.LevelRows | DBRecord/DBoperate.c:1355-1365 | the item of a level is that of the first row for the role and the group, and at the root of the first row for the role 0 |
| PolicySearch.GroupsItemRows | DBRecord/DBoperate.c:1297-1305 | the item of the resource's groups, by the rows that name the groups and then the rows that name the items |
| PolicySearch.ReachedItem | DBRecord/DBoperate.c:1343-1386 | an item reached by the climb stands at the end of a chain of parents on which no group in between is a top or has an item |
| OracleNumber.PrintedExactly | OracleProxy/oraclefilter.c:192-281 | a stored number is printed as decimal text of exactly its value, with the closing bar, if and only if it is zero, or its exponent leaves an integer part, or for a positive number puts the first pair right behind the point |
| OracleNumber.DigitsValue | OracleProxy/oraclefilter.c:218-240 | the digits with point and zero fill denote the sum of the pairs, each with its power of one hundred |
| OracleNumber.DigitsForm | OracleProxy/oraclefilter.c:218-240 | how many digits stand before and behind the point, where a leading zero is printed and where not: with the value this leaves one text only |
| OracleNumber.NumbersArePrinted | OracleProxy/oraclefilter.c:192-281 | seven stored numbers and their texts |
| OracleNumber.ZeroIsPrinted | OracleProxy/oraclefilter.c:282-283 | zero is the single byte 0x80 and is printed as 0; and what decimal texts mean |
| OracleNumber.SmallNumbersAreLost | OracleProxy/oraclefilter.c:278-280 | two small numbers that are printed as zero and as nothing |
| OracleNumber.PrintNumber | OracleProxy/oraclefilter.c:192-281 | the loops append exactly the printed text: NULL for no bytes, nothing for the small negative numbers, and 0 for zero and the small positive ones |
| OracleNumber.PrintPairs | OracleProxy/oraclefilter.c:218-240 | the loop over the mantissa |
| IniArray.WriteAndRead | oscshell2012 - NOPASSWD/OSCShell/Ini.cpp:152-221 | writing a list and reading it gives it back for trimmed items that lack the first character of the delimiter, and with a delimiter of one character only for these |
| IniArray.ListComesBack | oscshell2012 - NOPASSWD/OSCShell/Ini.cpp:152-221 | for a delimiter of one character, the kept parts of a joined list are the list if and only if its items are trimmed and lack the delimiter |
| IniArray.SplitUndoesJoin | oscshell2012 - NOPASSWD/OSCShell/Ini.cpp:766-812 | for a delimiter of one character, splitting undoes joining if and only if no item holds it |
| IniArray.GetArray | oscshell2012 - NOPASSWD/OSCShell/Ini.cpp:185-198 | measuring, splitting and parsing yield the kept parts of the line, always trimmed; where no trimming was asked for, this is the list asked for if and only if there was nothing to trim |
| IniArray.TrimmingMatters | oscshell2012 - NOPASSWD/OSCShell/Ini.cpp:773-812 | trimmed or not, the same parts are kept if and only if trimming changes none of them |
| IniArray.BlanksDoNotMatter | oscshell2012 - NOPASSWD/OSCShell/Ini.cpp:748-816 | a line written by hand, with commas between the items and any blanks, tabs, carriage returns and line feeds around them, is split into exactly the items when no delimiter is given |
| IniArray.ArrayLength | oscshell2012 - NOPASSWD/OSCShell/Ini.cpp:166-173 | the first pass returns exactly the bytes in front of the last NUL, and its buffer is large enough |
| IniArray.SplitFits | oscshell2012 - NOPASSWD/OSCShell/Ini.cpp:166-173 | two characters more than the line are always enough |
| IniArray.StringSplit | oscshell2012 - NOPASSWD/OSCShell/Ini.cpp:748-816 | the buffer holds the kept parts, each with its NUL, and a last NUL |
| IniArray.ParseDNTString | oscshell2012 - NOPASSWD/OSCShell/Ini.cpp:820-837 | the strings in a double-NUL-terminated buffer, in order |
| IniArray.TrimString | oscshell2012 - NOPASSWD/OSCShell/Ini.cpp:995-1035 | the buffer holds the trimmed text, also of a blank or an empty one if no blank byte lies in front of the buffer; true exactly if something was taken away |
| IniArray.TrimIsExact | oscshell2012 - NOPASSWD/OSCShell/Ini.cpp:995-1035 | trimming leaves a text alone exactly if it is trimmed, and takes only blanks away at the ends |
| IniArray.WriteArray | oscshell2012 - NOPASSWD/OSCShell/Ini.cpp:202-221 | the line with the delimiter between the first items |

## Left out

- Database, socket, logging and configuration code, browser automation, screen recording and launchers: calls into libraries that are not part of this model.
- Reading files and FILE output, stream input, and the conversion of attributes to numbers: library formatting.
- Row and column of errors: the document model keeps the error number only; positions are modelled by themselves in XmlCursor.
- XmlDocument.TiXmlDocument.Parse: builds its nodes as values; the doubly linked lists that the original builds at the same time are the subject of XmlDom.
- XmlDom.TiXmlNode.Clear: deletion frees memory in the original, which is not modelled; removed nodes are simply no longer in the tree.
- XmlDom.TiXmlNode.Clone: holds the attributes of an element as a sequence; that the ring behaves as this sequence is SetAttribute in XmlAttributeSet.
- XmlTheorems.DocumentRoundTrip: for documents of whole characters in which every reference that starts in a value or text also ends in it, and whose declarations hold neither quotes nor ampersands (NodesLegible). An open reference may swallow the text behind it; each one by itself never comes back with the pointer in its place (AttributeBack, TextBack, KeptTextBack, FieldBack), but whether two damaged leaves of one document could make up for each other is left open. Comments, CDATA, unknown tags and declarations are free of NUL, because they are printed as C strings.
- XmlExact.AttributeBack: in UTF-8 for values of whole characters, as are the other equivalences; truncated sequences are not modelled further.
- XmlCursor.TiXmlParsingData.Stamp: asks that in UTF-8 every lead byte 0xEF in front of the mark is followed by two more bytes; at one that is not, the loop of the original does not end.
- XmlString.TiXmlString.Append: the text appended does not alias the buffer, and the shared empty representation is one array for each string.
- XmlLayout.LayoutDoesNotMatter: for condensed white space, the default; with white space kept, layout around texts becomes part of them (LayoutIsKept).
- PasswordAnswers.SecretIsStored: worked out from the tables of the cipher, as is the longer password; the repository gives no example.
- PasswordMachine.EncryptText: the output starts empty, as strcat in the original needs it.
- StringsReplace.FindStringsCount: the needle is not empty; the loop of the original does not end otherwise.
- SqlText.StrSplit: allocation does not fail, so the code -2 does not occur; command buffers are large enough.
- PolicySearch.FindItem: queries do not fail, so the codes 1 to 3 do not occur; the rows of the policy found are read by plain queries that are not modelled. The climb comes to an end (Ends); the loop of the original does not, otherwise.
- OracleNumber.PrintNumber: a negative number has its terminator byte, and the result buffer is not full.
- IniArray.StringSplit: only buffers that are large enough, as both callers provide. Of a blank or empty part, __TrimString looks at the byte in front of the buffer; that byte is a parameter and must not be blank then.
- IniArray.GetArray: not for an empty delimiter, for which the buffer is not terminated twice.
- The other column types of PrintData, TNS row decoding and redirects: fixed offsets without a stated format.
