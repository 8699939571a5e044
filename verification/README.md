# A verified model of CABLE: Expat 1.95.2, the C++ type system and the generators

This project models the three layers of the repository in Dafny and proves what they are for.

- **Expat, content.** The restartable tokenizer of element content and CDATA sections, character by character as the C code
  reads (`XmlCharTypes`, `CharRefs`, `ContentScanner`, `ContentTokenizer`); what a parser makes of the tokens, with the tag
  stack, the `open` flags of entities and the recursion into their text (`Content`); the parser object with its buffer, its
  processors and its calls (`ContentParser`). Main results: any division of the input into calls gives the same result
  (`ChunkInvariance`; for external entities, `EntityChunks` says exactly when), and documents nest (`Nesting`). The content
  processor is specified by a run over the tokens of an input (`Content.Run`), against which the class is proved.
- **Expat, what content means.** On UTF-8 the tables of byte types become an automaton on characters (`Characters`,
  `CharacterScanner`). It recognises exactly the productions of XML 1.0 (`Productions`), and stops exactly where no markup can
  go on (`Refusals`). `ContentMeaning` defines what content means from its characters and productions alone, and proves that
  a run over any UTF-8 text has this meaning, errors and their positions included; `LegalCharacters` draws from it that only
  legal characters are accepted, and that all data made of them is. `TagNames` says for all bytes what the names in tags are,
  and what it means that they match.
- **Expat, element declarations.** The role machine (`ContentModel`), the scaffold with its first-child and next-sibling
  links (`Scaffold`), the flattening into one block (`ContentModelBuilder`, `ContentModelBlock`) and the object that drives
  them (`ElementDeclaration`). Main result: the round trip between printed models and blocks. Any allocation may fail; of the one
  whose failure goes unchecked see below.
- **Expat, attributes.** Normalisation with entities, token by token (`AttributeValue`, `AttributeStore`), and the value that
  section 3.3.3 of XML 1.0 defines on characters, to which it is equal (`NormalizedValues`); the second pass over a tag with
  its fast path (`TagAttributes`), the attribute list with duplicates, defaults and marks (`AttributeLists`), and the way
  from the bytes of a tag (`StartTags`), or from a tag as it is written (`TagTexts`), to that list.
- **Expat, namespaces.** Scopes as they should be (`NamespaceScopes`), chains of bindings (`NamespaceBindings`), the tag
  stack with shared and replaced URI buffers (`NamespaceStack`), the context string given to external entities
  (`Contexts`), and the parser that starts with it (`EntityScopes`).
- **Expat, data structures and encodings.** String pools (`StringPools`), the hash table (`HashTables`), and the conversions
  between UTF-16 and UTF-8 (`Transcoding`).
- **C++ types.** Types as values (`CxxTypes`), the factories that make one object of each (`TypeSystem`), the qualification
  conversions (`QualificationConversion`) and class hierarchies (`ClassHierarchy`).
- **Generators.** The order of type initialisations (`CvTypeWriters`), the types collected for wrappers and the conversions
  registered with them (`TclGenerators`), and the order in which classes are handed to SWIG (`BaseClasses`,
  `ImportClosure`, `LostBases`, `StraightHierarchies`, `SwigOrder`).

Code that updates state is a class or a method with loops, proved against functions on values; the theorems are about those
functions. Bytes are 0 to 255, the tables of name characters are two arbitrary predicates on characters, and the hash
function is arbitrary. The variants modelled are those without `XML_CONTEXT_BYTES`, without `XML_DTD` and without `_MSC_VER`.
Allocation failures are nondeterministic in element declarations, namespaces, pools and hash tables.

Where code and intention differ, the model follows the code, and a lemma or a contract says what happens:

- Behind a CDATA section in which a call has stopped, the code goes on at level 0, also in an external entity. An entity in
  pieces can so be refused although it is accepted in one (`EntityChunks.EntityCutInSection`), and an end tag can meet an
  empty tag stack, where the code reads through a null pointer (`EntityChunks.EmptyTagStackIsMet`); the model has an error of
  its own for that, `NullTagStack`. `EntityChunks.EntityChunks` and `EntityChunks.NullTagStackIff` have the exact conditions,
  on the text and the cuts.
- The events in front of an error can depend on how the input is cut (`ChunkInvariance.ReportedBeforeError`).
  `ChunkInvariance.ChunkInvariance` says exactly when, and what the difference is.
- The reallocation of the path to the innermost group of a content model goes unchecked. If it fails, a new array takes its
  place of which only the first element is set, and the code uses another one as an index. The model has an outcome of its own
  for that, `PathLost`; `ElementDeclaration.Declarations.OpenGroup` says when it happens.
- The tokenizers accept some byte sequences that are not UTF-8, in which a 0x20 byte is part of a character. Then tokenized
  values need not be what the standard asks for (`AttributeValue.MalformedTextDiffers`), and values copied by the fast path not
  what the slow path makes of them (`TagAttributes.FastPathDiffers`, for a tag that is accepted). The exact conditions are in
  `AttributeValue.TokenizedIsStrippedCdata` and `TagAttributes.FastPath`; UTF-8 text always meets them.
- `StringPools.StringPool.ReallocFirst`: when `realloc` fails, the pointer to the list of blocks has already been overwritten.
  All memory is given back in the end exactly when that has never happened (`StringPools.StringPool.Destroy`), and
  `StringPools.StringPool.Run` says in which states it happens.
- The `break` in `utf8_toUtf16` for a character of four bytes leaves the `switch` and not the loop, which then never ends
  (`Transcoding.FourBytesOnePlace`); `Transcoding.EndsIfNeverStuck` has the exact condition.
- The loop over base classes stops at the first one already there, so the set of imported classes need not be closed under
  bases (`LostBases.SecondParentIsLost`). `LostBases.ClosedIffNothingLost` says when a run is, and
  `StraightHierarchies.SafeIffStraight` for which hierarchies all runs are. The order of emission does not depend on it.
- After an error in a tag, the marks of the attributes seen stay set (`AttributeLists.Attributes.StoreAtts`); and an ID attribute
  that is a namespace declaration leaves the index of an earlier element in place (`AttributeLists.Attributes.FindIdAttribute`).

## Model

| member | source | states |
|---|---|---|
| `ChunkInvariance.ChunkInvariance` | Cable/Expat/xmlparse.c:1065-1212 | any way of cutting a document into calls, the last one final, ends in the same state as one call with all of it, with the same events once adjacent character data is merged, the same open tags, the same error code at the same byte and the same events before the error, if and only if no call reports character data that is part of an invalid token of the whole input; if one does, that data, reported last, is the only difference |
| `ChunkInvariance.RunExtend` | Cable/Expat/xmltok_impl.c:780-875 | prefix stability of a whole run: stopping for want of input and going on with more is the run on the whole input, up to character data told before an invalid token, and a run that has ended any other way ends so on every extension |
| `ChunkInvariance.RunShift` | Cable/Expat/xmlparse.c:1126-1212 | dropping the consumed bytes only renumbers positions |
| `ChunkInvariance.FeedTwice` | Cable/Expat/xmlparse.c:1065-1124 | two calls are one call with both chunks, up to character data told before an invalid token, from every state a parser can be in between calls, unless the first stops inside a CDATA section of an external entity: then the level is forgotten |
| `ChunkInvariance.CutsOutsideSections` | Cable/Expat/xmlparse.c:1065-1212 | for a document or an external entity: cuts that do not fall inside a CDATA section of an external entity do no harm, but for such data |
| `ChunkInvariance.ReportedBeforeError` | Cable/Expat/xmltok_impl.c:826-860 | a concrete input: in one call its failure comes without events, in two after the character in front of the misplaced end of section |
| `ChunkInvariance.PrematureIsBeforeBrackets` | Cable/Expat/xmltok_impl.c:826-860 | what the condition means in the text: data that is told although it is part of an invalid token stands in front of a misplaced end of section, with nothing but character data between |
| `EntityChunks.EntityChunks` | Cable/Expat/xmlparse.c:2144-2155 | an external entity in calls, exactly: the result is that of one call if and only if no data is told too early, and no call stops inside a CDATA section or the text has an error of its own before its end and before any end tag that closes nothing opened in it |
| `EntityChunks.EntityInPieces` | Cable/Expat/xmlparse.c:2144-2155 | what becomes of it in every case, and of the single call: where a section is cut and the text can be read to its end, the entity lacks a document element; where it can be read to a stray end tag, this is looked up in an empty tag stack |
| `EntityChunks.NullTagStackIff` | Cable/Expat/xmlparse.c:1696-1702 | the parser of an external entity reads through the null tag stack if and only if a call stops inside a CDATA section and the text has an end tag that closes no tag opened in it |
| `EntityChunks.NeverNull` | Cable/Expat/xmlparse.c:1696-1702 | at its own level no text, with any entities, brings a run to look into an empty tag stack |
| `EntityChunks.DocumentsNeverNull` | Cable/Expat/xmlparse.c:1696-1702 | nor does any document, however it is cut |
| `EntityChunks.EmptyTagStackIsMet` | Cable/Expat/xmlparse.c:1696-1702 | a concrete entity in two calls that reads through the null tag stack, although one call reports that it is not balanced |
| `EntityChunks.LevelMatters` | Cable/Expat/xmlparse.c:1416-1422 | the rest of an external entity, read at its level and at that of a document: the runs differ exactly where the text can be read to its end or to a stray end tag, and how |
| `EntityChunks.EntityCutInSection` | Cable/Expat/xmlparse.c:2144-2155 | a concrete entity that is complete in one call and lacks the document element in two, because the call that closes the section goes on at level 0 |
| `ChunkInvariance.FeedIsIdle` | Cable/Expat/xmlparse.c:1146-1212 | a parser that waits cannot go on with what it has: an empty chunk that is not final changes nothing |
| `ContentScanner.ScanExtend` | Cable/Expat/xmltok_impl.c:682-778 | a complete markup token found in a prefix is the same token in every extension |
| `ContentScanner.DataScanExtend` | Cable/Expat/xmltok_impl.c:780-875 | character data found in a prefix is lengthened by an extension, and an error found in it stays that error |
| `ContentScanner.TokBounds` | Cable/Expat/xmltok_impl.c:301-375 | a token ends inside the input, and every valid token takes at least one byte |
| `ContentTokenizer.NextContentTok` | Cable/Expat/xmltok_impl.c:781-875 | the scanner of element content returns the token, the position or the reason for stopping that the character-by-character automaton determines, for all input; what this automaton recognises, and where it refuses, is in the rows of `Productions`, `Refusals` and `LegalCharacters` |
| `ContentTokenizer.NextCdataSectionTok` | Cable/Expat/xmltok_impl.c:302-375 | the same for CDATA sections |
| `CharacterScanner.ScanText` | Cable/Expat/xmltok_impl.c:682-778 | on UTF-8 the automaton of byte types and lead bytes is one on characters: the same tokens, and the same stops at the same bytes, with a character refused only if production Char does not have it or because of where it stands |
| `Productions.RecognisedIffWritten` | Cable/Expat/xmltok_impl.c:682-875 | at '<' or '&' in UTF-8 text a token is recognised if and only if the text begins with markup that is written as the productions of XML 1.0 have it, STag, EmptyElemTag, ETag, PI, Comment, CDStart or Reference; which token it is, and how long, is that of the markup |
| `Productions.MarkupWritten` | Cable/Expat/xmltok_impl.c:682-778 | legal markup, written out, is read as its token, whatever follows it |
| `Productions.MarkupRead` | Cable/Expat/xmltok_impl.c:682-778 | what is read as a token is the written form of legal markup |
| `Refusals.StuckIsRefused` | Cable/Expat/xmltok_impl.c:682-778 | where markup is not recognised, the scanner stops at the one character with which no legal markup can go on, while everything in front of it can be completed to legal markup; if there is no such character, it asks for more |
| `LegalCharacters.TokensAreLegal` | Cable/Expat/xmltok_impl.c:14-48 | section 2.2 of XML 1.0: in every valid token of content or of a CDATA section each character of a UTF-8 text is one that production Char has; for names this takes bitmaps that have no other character, for data and all else nothing |
| `LegalCharacters.DataIsReported` | Cable/Expat/xmltok_impl.c:780-875 | a converse: UTF-8 data of such characters without '<', '&' and ']]>' is never refused, and is reported byte for byte but for its line ends, which are normalised as section 2.11 of XML 1.0 has it |
| `LegalCharacters.SectionIsReported` | Cable/Expat/xmltok_impl.c:301-375 | the same in a CDATA section, where '<' and '&' are data and the first ']]>' is the end |
| `ContentTokenizer.ScanLt` | Cable/Expat/xmltok_impl.c:682-778 | what follows '<' is read as the automaton does from the state behind '<' |
| `ContentTokenizer.ScanAtts` | Cable/Expat/xmltok_impl.c:522-677 | attributes of a tag: names with at most one colon, '=', quoted values with references inside, white space between attributes, the end of the tag |
| `ContentTokenizer.ScanToEquals` | Cable/Expat/xmltok_impl.c:549-568 | white space between an attribute name and '=' |
| `ContentTokenizer.ScanValue` | Cable/Expat/xmltok_impl.c:594-622 | a quoted value ends at the quote that opened it; '<' in it is invalid; a reference in it is scanned as in content |
| `ContentTokenizer.ScanRef` | Cable/Expat/xmltok_impl.c:492-517 | references, for the two callers: content and attribute values |
| `ContentTokenizer.ScanCharRef` | Cable/Expat/xmltok_impl.c:460-487 | decimal and hexadecimal character references |
| `ContentTokenizer.ScanHexCharRef` | Cable/Expat/xmltok_impl.c:428-455 | hexadecimal digits up to ';' |
| `ContentTokenizer.ScanEndTag` | Cable/Expat/xmltok_impl.c:380-424 | end tags |
| `ContentTokenizer.ScanComment` | Cable/Expat/xmltok_impl.c:91-124 | comments; '--' must be followed by '>' |
| `ContentTokenizer.ScanPi` | Cable/Expat/xmltok_impl.c:220-279 | processing instructions and misplaced XML declarations |
| `ContentTokenizer.CheckTarget` | Cable/Expat/xmltok_impl.c:176-215 | 'xml' makes a declaration, any other spelling of it is refused, other targets are accepted |
| `ContentTokenizer.ScanCdataSection` | Cable/Expat/xmltok_impl.c:283-299 | all six bytes of CDATA[ must be there before a mismatch is reported, at its first byte |
| `CharRefs.CharRefNumber` | Cable/Expat/xmltok_impl.c:1516-1553 | the loop that multiplies, adds and gives up early returns the value of the numeral if it is a legal character and -1 otherwise |
| `CharRefs.CheckedIsXmlChar` | Cable/Expat/xmltok.c:1104-1120 | below 0x110000 the check accepts exactly the production Char of XML 1.0 |
| `CharRefs.PrintedRefIsRead` | Cable/Expat/xmltok_impl.c:1516-1553 | round trip: the decimal or hexadecimal numeral of any number, with letters of either case and any leading zeros, is read back as that number, if it is a character, and else refused |
| `ContentParser.Parser.Parse` | Cable/Expat/xmlparse.c:1065-1124 | one call on the class with its buffer, tag stack and processor is one feeding step; the unconsumed tail is kept whole and in order |
| `ContentParser.Parser.ParseBuffer` | Cable/Expat/xmlparse.c:1126-1144 | the same for data put into the buffer, in content, in a CDATA section, and in the epilog, which takes it all |
| `ContentParser.Parser.GetBuffer` | Cable/Expat/xmlparse.c:1146-1212 | room for the bytes asked for; the tail may move or be copied to a larger buffer but does not change |
| `ContentParser.Parser.KeepTail` | Cable/Expat/xmlparse.c:1082-1112 | the bytes that a call did not consume are the pending tail afterwards |
| `ContentParser.Parser.DoContent` | Cable/Expat/xmlparse.c:1425-1854 | the token loop, with the recursion into internal entities, does what a run of the specification does; it ends because entities not open get fewer or bytes left do |
| `ContentParser.Parser.DoCdataSection` | Cable/Expat/xmlparse.c:2161-2250 | the loop inside CDATA sections, which can be left and re-entered between calls |
| `ContentParser.Parser.ContinueContent` | Cable/Expat/xmlparse.c:2144-2155 | a call resumes in content, at the level of its processor, or inside a CDATA section; behind the section it goes on at level 0, whatever the level was |
| `ContentParser.Parser.OnEntityReference` | Cable/Expat/xmlparse.c:1491-1567 | predefined characters, undefined, recursive and unparsed entities, and entity text parsed in place with the open flag set |
| `ContentParser.Parser.OnStartTag` | Cable/Expat/xmlparse.c:1568-1650 | a start tag pushes its name and reports it; which bytes these are is in `TagNames.TagIsPushed` |
| `ContentParser.Parser.OnEmptyElement` | Cable/Expat/xmlparse.c:1651-1695 | both events; at level 0 the document is complete; the name is that of `TagNames.TagIsPushed` |
| `ContentParser.Parser.OnEndTag` | Cable/Expat/xmlparse.c:1696-1737 | not below the level at which the text began; names must match, as `TagNames.EndTagMatches` says; at level 0 the document is complete |
| `ContentParser.Parser.OnCharRef` | Cable/Expat/xmlparse.c:1738-1750 | the character of the reference, or the error for an illegal one |
| `ContentParser.Parser.AtEndOfInput` | Cable/Expat/xmlparse.c:1448-1490 | what the end of input means for each reason to stop |
| `Content.ElementStartsWithTag` | Cable/Expat/xmlparse.c:1425-1475 | where the prolog hands over, the first token can only be a tag |
| `Content.CharRefIsWellFormed` | Cable/Expat/xmlparse.c:1738-1742 | what the tokenizer calls a character reference is one, so that its number can be read |
| `ContentMeaning.RunMeans` | Cable/Expat/xmlparse.c:1425-1854 | what a document or an entity means, read from its characters by the productions, with no tokens and no bytes: the run over every UTF-8 text accepts exactly what has a meaning, with the events and open elements that it means, and otherwise fails with the error, and at the byte, of the first place that has none; through internal entities, line ends, CDATA sections and references |
| `Content.EmitTells` | Cable/Expat/xmlparse.c:1738-1850 | telling an event adds it behind what was told before and changes nothing else: character data byte by byte, all other events one by one |
| `TagNames.TagNamesAreUpToMarks` | Cable/Expat/xmltok_impl.c:1685-1712 | in every start, empty-element or end tag that the tokenizer accepts, whatever its bytes, the reported name is all that stands between '<' or '</' and the first white space, '/' or '>' (for end tags, white space or '>'), which is in the tag |
| `TagNames.AttributeNamesAreUpToMarks` | Cable/Expat/xmltok_impl.c:1423-1513 | every attribute of an accepted tag is reported under all that stands between the first character of its name and the first white space or '=' |
| `TagNames.TagIsPushed` | Cable/Expat/xmlparse.c:1568-1695 | a start tag is pushed and reported under the bytes up to its first mark; an empty-element tag is reported under them twice |
| `TagNames.EndTagMatches` | Cable/Expat/xmlparse.c:1696-1737 | Element Type Match on the bytes: an end tag closes the innermost element if and only if its bytes up to the first mark are those under which that element was pushed |
| `Nesting.DocumentIsOneElement` | Cable/Expat/xmlparse.c:1425-1854 | Element Type Match: in every state in which a document parser waits, the tag stack is the list of open start events; a completed document is the rendering of one tree; whether more input follows or not; the names are those of `TagNames` |
| `Nesting.RunNests` | Cable/Expat/xmlparse.c:1425-1737 | a run closes only what it opened, and with matching names |
| `Nesting.EntityNests` | Cable/Expat/xmlparse.c:1523-1547 | an expanded internal entity is balanced: the tag stack is as before and the events in between nest |
| `Nesting.ActNests` | Cable/Expat/xmlparse.c:1491-1737 | the same of every single token |
| `Nesting.BalancedIsForest` | Cable/Expat/xmlparse.c:1696-1737 | balanced events are the rendering of a sequence of trees |
| `ContentModel.AcceptedIffPrinted` | Cable/Expat/xmlrole.c:916-1130 | round trip: tokens are accepted with a name and a model exactly when, white space aside, they are the printed form of that legal model; so a group with both a comma and a bar is never accepted |
| `ContentModel.PrintedIsAccepted` | Cable/Expat/xmlrole.c:916-1130 | every legal model, printed, is read back as itself |
| `ContentModel.AcceptedIsPrinted` | Cable/Expat/xmlrole.c:916-1130 | whatever is accepted is the printed form of the legal model it was read as |
| `ContentModel.HasReadStep` | Cable/Expat/xmlrole.c:916-1130 | in every reachable state the open groups print as the tokens read so far |
| `ElementDeclaration.Declarations.Declare` | Cable/Expat/xmlparse.c:3023-3212 | a whole declaration through role machine, scaffold and flattening: memory permitting, accepted exactly when it is a printed legal model, and then the application gets a block that denotes that model in exactly as many cells and characters as it needs; the unchecked reallocation can only matter where 31 groups are open |
| `ElementDeclaration.Declarations.DeclareAll` | Cable/Expat/xmlparse.c:3118-3212 | any number of declarations in the same arrays: those in front of the first that is not accepted are printed legal models, each delivered in a block that denotes it, and that one is none, unless memory ran out or the path was lost |
| `ElementDeclaration.Declarations.NextDeclaration` | Cable/Expat/xmlparse.c:3118-3127 | what a declaration leaves in the arrays does not matter to the next |
| `ElementDeclaration.Declarations.OnToken` | Cable/Expat/xmlparse.c:3023-3212 | one token: fields and arrays keep representing the groups that are open |
| `ElementDeclaration.LevelIsDepth` | Cable/Expat/xmlrole.c:961-1130 | whenever a role is carried out, the level of the role machine is the number of open groups |
| `ElementDeclaration.StateStaysOk` | Cable/Expat/xmlrole.c:916-1130 | which groups are open in which handler state |
| `ElementDeclaration.Declarations.GroupRoom` | Cable/Expat/xmlparse.c:3023-3035 | the connector array and the path array grow together, and keep what they held; the path is gone only if a group opens at a level not below the size of an existing array, with a path allocated, and its reallocation fails |
| `ElementDeclaration.Declarations.NextScaffoldPart` | Cable/Expat/xmlparse.c:4500-4539 | a new cell at the end, linked as last child of the innermost open group, or no memory; behind a lost path the group would be read from a place that was not set |
| `ElementDeclaration.Declarations.OpenGroup` | Cable/Expat/xmlparse.c:3023-3044 | a group opens: its cell is appended and the path gets one longer; if the path could not be reallocated, memory runs out next or the path is unknown, and only then |
| `ElementDeclaration.Declarations.Sequence` | Cable/Expat/xmlparse.c:3045-3049 | a comma is refused behind a bar |
| `ElementDeclaration.Declarations.ChoiceOf` | Cable/Expat/xmlparse.c:3050-3060 | a bar is refused behind a comma; a group becomes a choice unless it is mixed |
| `ElementDeclaration.Declarations.Pcdata` | Cable/Expat/xmlparse.c:3150-3154 | the group becomes mixed |
| `ElementDeclaration.Declarations.Element` | Cable/Expat/xmlparse.c:3156-3183 | a name becomes a member of the innermost group |
| `ElementDeclaration.Declarations.CloseGroup` | Cable/Expat/xmlparse.c:3185-3212 | a group becomes a member of the one around it, or the model is delivered |
| `ElementDeclaration.Declarations.AnyOrEmpty` | Cable/Expat/xmlparse.c:3129-3148 | the two models of one cell |
| `ElementDeclaration.Declarations.ElementName` | Cable/Expat/xmlparse.c:3118-3127 | a declaration begins with empty arrays |
| `ElementDeclaration.Declarations.BuildModel` | Cable/Expat/xmlparse.c:4579-4595 | one block of scaffCount cells and contentStringLen characters, filled exactly |
| `ContentModelBlock.BuildNode` | Cable/Expat/xmlparse.c:4542-4576 | lays the tree out and writes nothing outside its part of the block |
| `ContentModelBlock.CopyName` | Cable/Expat/xmlparse.c:4550-4559 | a name with its terminator |
| `ContentModelBuilder.BuiltDenotes` | Cable/Expat/xmlparse.c:4542-4576 | following positions in the block, the application finds the tree |
| `ContentModelBuilder.DenotesUnique` | Cable/Expat/xmlparse.c:4542-4576 | and no other tree |
| `ContentModelBuilder.EveryCellHasOneParent` | Cable/Expat/xmlparse.c:4542-4576 | child ranges are disjoint and cover every cell but the first |
| `Scaffold.AppendLeaf` | Cable/Expat/xmlparse.c:4500-4539 | appending a cell for a name adds that name to the innermost open group and to nothing else |
| `Scaffold.AppendGroup` | Cable/Expat/xmlparse.c:3036-3043 | appending a cell for a group opens a group inside the innermost one |
| `Scaffold.CloseInner` | Cable/Expat/xmlparse.c:3197-3199 | closing a group makes it the last member of the group around it |
| `Scaffold.CloseLast` | Cable/Expat/xmlparse.c:3200-3210 | closing the outermost group leaves the whole scaffold as that tree |
| `AttributeValue.TokenizedIsStrippedCdata` | Cable/Expat/xmlparse.c:3345-3479 | section 3.3.3 of XML 1.0, for any bytes and all entity tables: the tokenized value is strip-and-squeeze of the CDATA value, with the same error, if and only if the value is in error or no character read for it, entities expanded, contains two adjacent 0x20 bytes |
| `AttributeValue.AppendSqueezes` | Cable/Expat/xmlparse.c:3360-3479 | without such characters the online collapsing, through nested entities and onto whatever is in the pool, is the squeezing of the CDATA text |
| `AttributeValue.AppendKeeps` | Cable/Expat/xmlparse.c:3360-3479 | a tokenized value fails exactly as the CDATA value does; otherwise it keeps what was in the pool, and any doubled space that was read inside a character |
| `AttributeValue.WellFormedNeverDoubles` | Cable/Expat/xmltok_impl.c:1195-1251 | in UTF-8 text no character that is read has a space inside, through all entities |
| `AttributeValue.TokIsWhole` | Cable/Expat/xmltok_impl.c:1195-1251 | in text that ends between characters every token of a value does, references included, and no character of a run is a space |
| `AttributeValue.SqueezeIsJoin` | Cable/Expat/xmlparse.c:3409-3418 | squeezing byte by byte gives the words with one space between them |
| `AttributeValue.MalformedTextDiffers` | Cable/Expat/xmltok_impl.c:1195-1251 | a concrete value for which tokenized and stripped CDATA differ: a lead byte takes the spaces behind it with it |
| `NormalizedValues.StoresCdata` | Cable/Expat/xmlparse.c:3345-3479 | section 3.3.3 of XML 1.0, for any bytes and all entity tables: what is stored for a CDATA attribute is the value defined on its characters, white space and line ends made one space each, the character for a reference to it, the value of its text for an entity, all else kept; and the same error where there is one |
| `NormalizedValues.StoresTokenized` | Cable/Expat/xmlparse.c:3345-3479 | for a tokenized attribute it is that value, stripped and squeezed, if and only if it is in error or no character that is read has two spaces inside |
| `NormalizedValues.PlainValue` | Cable/Expat/xmlparse.c:3409-3418 | the value of UTF-8 text without references is that text with each tab, space, line feed, carriage return and pair of both made one space, and every other byte kept |
| `NormalizedValues.ControlsAreReferredTo` | Cable/Expat/xmlparse.c:3378-3418 | a value has a tab or a line end in it if and only if one is referred to by its number, in the value or in an entity that is expanded for it |
| `AttributeStore.NextValueTok` | Cable/Expat/xmltok_impl.c:1196-1251 | the scanner of attribute values finds the token of the specification, in all text that ends between characters |
| `AttributeStore.Store.AppendAttributeValue` | Cable/Expat/xmlparse.c:3360-3479 | the loop and its recursion into entities compute the value that `NormalizedValues` defines on characters, or the error, and leave the open flags as they were; it ends because of the flags |
| `AttributeStore.Store.AppendEntity` | Cable/Expat/xmlparse.c:3419-3470 | predefined, undefined, recursive, unparsed, external and internal entities |
| `AttributeStore.Store.AppendCharRef` | Cable/Expat/xmlparse.c:3378-3403 | a reference to a space collapses like a space |
| `AttributeStore.Store.StoreAttributeValue` | Cable/Expat/xmlparse.c:3345-3357 | a tokenized value loses its final space |
| `TagAttributes.FastPath` | Cable/Expat/xmlparse.c:1888-1949 | for every tag the tokenizer accepts, UTF-8 or not: each value consists of whole characters, as storing it requires; one that the second pass calls normalized is, as CDATA, stored as its raw bytes, and as a tokenized value if and only if no character of several bytes in it ends in 0x20 before a space or the end |
| `TagAttributes.FastPathAgrees` | Cable/Expat/xmlparse.c:1888-1949 | in UTF-8 text a value called normalized is stored as its raw bytes with either type |
| `TagAttributes.BadTagIsAccepted` | Cable/Expat/xmltok_impl.c:522-677 | a concrete start tag with such a character in a value is accepted by the tokenizer |
| `TagAttributes.FastPathDiffers` | Cable/Expat/xmlparse.c:1931-1948 | its value is called normalized, so that both spaces stay; the slow path would drop one |
| `TagAttributes.GetAtts` | Cable/Expat/xmltok_impl.c:1423-1513 | returns the same number of attributes for every size of the array and fills as many as fit |
| `TagAttributes.StaysInStep` | Cable/Expat/xmltok_impl.c:1423-1513 | the second pass is in step with the scanner that accepted the tag and ends where the tag ends |
| `TagAttributes.ProperFrom` | Cable/Expat/xmltok_impl.c:1423-1513 | each value lies between two quotes of one kind, consists of whole characters, and is free of anything to normalise if it is called normalized |
| `TagAttributes.CleanStore` | Cable/Expat/xmlparse.c:3345-3479 | what the slow path makes of a value called normalized: as CDATA itself; as a tokenized value itself exactly if it loses no space |
| `AttributeLists.Attributes.StoreAtts` | Cable/Expat/xmlparse.c:1900-2052 | section 3.1 of XML 1.0: reports a duplicate exactly at the first repeated name; otherwise the specified attributes, then the declared defaults not specified; all marks are clear again if and only if no error was reported, and otherwise exactly the names seen are marked; the index of the ID attribute is right in the list, -1, or that of an earlier element if the attribute is a namespace declaration |
| `AttributeLists.Attributes.AddSpecified` | Cable/Expat/xmlparse.c:1900-1967 | the loop over the attributes of the tag |
| `AttributeLists.Attributes.AddDefaults` | Cable/Expat/xmlparse.c:1980-2002 | the loop over the declared defaults |
| `AttributeLists.Attributes.FindIdAttribute` | Cable/Expat/xmlparse.c:1970-1980 | the position of the ID attribute of the tag; it is not set if that attribute is a namespace declaration |
| `AttributeLists.Attributes.Finish` | Cable/Expat/xmlparse.c:2005-2052 | expanding stops at the last prefixed name, names with an unbound prefix stay as they are, and what is left is cleared: no mark remains |
| `AttributeLists.ElementType.DeclaredType` | Cable/Expat/xmlparse.c:1917-1928 | the shortcut through maybeTokenized never changes the type that is found |
| `AttributeLists.ElementType.Define` | Cable/Expat/xmlparse.c:3689-3724 | the first declaration decides the type, and only it can have a default value |
| `StartTags.Reader.StoreStartTag` | Cable/Expat/xmlparse.c:1889-2052 | from the bytes of an accepted tag to the attribute list: success exactly if names are unique and values in order, and then the list of the tag followed by the defaults |
| `StartTags.Reader.FindAttributes` | Cable/Expat/xmlparse.c:1889-1898 | whatever the size of the buffer was, it holds all attributes of the tag afterwards, with room for the defaults, unless memory for growing is missing |
| `StartTags.TagIsNormalised` | Cable/Expat/xmlparse.c:1915-1949 | from the bytes of an accepted tag to values: every attribute gets the value that storeAttributeValue would give if and only if no copied value of a tokenized attribute loses a space |
| `StartTags.Utf8TagIsNormalised` | Cable/Expat/xmlparse.c:1915-1949 | for a tag in UTF-8 this is always so |
| `StartTags.Utf8TagIsStandard` | Cable/Expat/xmlparse.c:1915-1949 | section 3.3.3 of XML 1.0 from the bytes of a tag in UTF-8: every attribute, copied or not, gets its CDATA value as defined on characters, stripped and squeezed if it is declared tokenized |
| `TagTexts.AttributesOfTag` | Cable/Expat/xmltok_impl.c:1423-1513 | of a tag that is written as the productions have it, the second pass finds the attributes: as many, in order, each at its name and with what is between its quotes |
| `TagTexts.TagMeans` | Cable/Expat/xmlparse.c:1889-1949 | from a tag as it is written to its list: each attribute under the name that is written, with the value that section 3.3.3 of XML 1.0 asks for what is written between its quotes |
| `NamespaceStack.Parser.Process` | Cable/Expat/xmlparse.c:1568-1737 | a whole element with everything in it: the events carry the names that the declarations in scope call for, start and end under the same name, and afterwards every prefix is bound as before, although nested elements overwrite and replace the shared buffers |
| `NamespaceStack.Parser.ProcessAll` | Cable/Expat/xmlparse.c:1568-1737 | the same for elements in sequence |
| `NamespaceStack.Parser.StartElement` | Cable/Expat/xmlparse.c:1575-1650 | declarations in order, then the name in the scope they make, then the tag is pushed |
| `NamespaceStack.Parser.EndElement` | Cable/Expat/xmlparse.c:1696-1733 | the end event has the name of the start event, and the scope is the one in which the element began |
| `NamespaceStack.Parser.EmptyElement` | Cable/Expat/xmlparse.c:1658-1690 | both events under one name; the declarations are undone at once |
| `NamespaceStack.Parser.AddBinding` | Cable/Expat/xmlparse.c:2092-2138 | one declaration: a recycled or new binding with its own buffer; an empty URI takes the default namespace away |
| `NamespaceStack.Parser.ExpandName` | Cable/Expat/xmlparse.c:2053-2089 | the name is put together in the buffer of its binding |
| `NamespaceStack.Parser.GrowBuffer` | Cable/Expat/xmlparse.c:2073-2085 | replacing a buffer redirects the names of all open tags that use it |
| `NamespaceStack.Parser.ReleaseAll` | Cable/Expat/xmlparse.c:1725-1733 | the bindings of a tag are undone, the latest first, and recycled |
| `NamespaceStack.Parser.Inherit` | Cable/Expat/xmlparse.c:3896-3920 | a binding of the context is declared in the scope of a new parser |
| `NamespaceBindings.OpeningAdd` | Cable/Expat/xmlparse.c:2121-2133 | one declaration changes the scope of the element being opened and no scope further out |
| `NamespaceBindings.UriDeclare` | Cable/Expat/xmlparse.c:2121-2133 | the chain of bindings of a prefix, as a scope |
| `NamespaceScopes.ElementReported` | Cable/Expat/xmlparse.c:1568-1737 | each element, at whatever depth, is reported under its own name in the scope made by all declarations on the way to it, at its start and at its end |
| `NamespaceScopes.LastDecides` | Cable/Expat/xmlparse.c:2092-2138 | in that scope the last declaration of a prefix on the way decides, that of the innermost element; an empty URI takes the default namespace away |
| `NamespaceScopes.RawNameDetermines` | Cable/Expat/xmlparse.c:3726-3748 | a name as it is written has one prefix, what stands before its first colon, and one local part |
| `Contexts.ContextRoundTrip` | Cable/Expat/xmlparse.c:3811-3933 | for names without '=' and form feed and URIs without form feed, reading a written context restores each prefix and exactly the open entities, whatever the order of the tables |
| `EntityScopes.ParseEntity` | Cable/Expat/xmlparse.c:3880-3933 | the elements of an external entity get the names that the scope around the reference calls for: the context is written by one parser, inherited by the next, and whole elements are processed on top of it |
| `EntityScopes.InheritContext` | Cable/Expat/xmlparse.c:3880-3933 | a new parser whose scope and open entities are those of the context |
| `Contexts.GetContext` | Cable/Expat/xmlparse.c:3812-3877 | writes the bindings and open entities with a form feed between them |
| `Contexts.SetContext` | Cable/Expat/xmlparse.c:3880-3933 | the two-cursor loop reads what the specification reads |
| `Contexts.ItemsOfJoin` | Cable/Expat/xmlparse.c:3884-3931 | a joined context falls into its pieces |
| `StringPools.StringPool.Run` | Cable/Expat/xmlparse.c:312-322 | any sequence of operations, up to the first failed append, has the effect it would have on plain strings; until a clear, finished strings keep block and offset; blocks are lost if and only if an append failed while the string being built had a block to itself |
| `StringPools.StringPool.Perform` | Cable/Expat/xmlparse.c:312-322 | one operation; only appending can fail, and then the user sees no change; whether blocks are lost then is decided by whether the string being built has a block to itself |
| `StringPools.StringPool.Grow` | Cable/Expat/xmlparse.c:4443-4497 | the string being built is preserved, finished strings neither move nor change, and success leaves room for one more character; failure loses all blocks in use exactly if the first of them holds the string being built and nothing else |
| `StringPools.StringPool.ReallocFirst` | Cable/Expat/xmlparse.c:4467-4476 | a failed realloc loses the whole list of blocks, which are then in neither list |
| `StringPools.StringPool.AppendChar` | Cable/Expat/xmlparse.c:319-322 | appends one character, or leaves the string as it was; blocks are lost exactly if it fails where the block would be reallocated |
| `StringPools.StringPool.Finish` | Cable/Expat/xmlparse.c:318 | the string becomes a finished one, and a new one begins |
| `StringPools.StringPool.Clear` | Cable/Expat/xmlparse.c:4337-4354 | all blocks are in the list to be recycled |
| `StringPools.StringPool.Destroy` | Cable/Expat/xmlparse.c:4357-4376 | frees every block of both lists once; all memory is given back exactly when no realloc has failed |
| `StringPools.FinishedStays` | Cable/Expat/xmlparse.c:312-322 | finished strings stay, in their order, until the pool is cleared |
| `HashTables.HashTable.Lookup` | Cable/Expat/xmlparse.c:4220-4281 | a finite map for any hash function: a known name gives its entry, an unknown one a new entry if asked for, and a failed allocation changes nothing; entries never move or change; the size stays a power of two |
| `HashTables.HashTable.Find` | Cable/Expat/xmlparse.c:4237-4244 | the probe ends at the entry, or at the empty slot where it belongs |
| `HashTables.MaskIsRemainder` | Cable/Expat/xmlparse.c:4237-4238 | the mask with size - 1 gives a slot of the table: the remainder, as sizes are powers of two |
| `HashTables.HashTable.Rehash` | Cable/Expat/xmlparse.c:4247-4267 | all entries are found in the table of double size |
| `HashTables.PutEntry` | Cable/Expat/xmlparse.c:4268-4280 | an entry in the first empty slot leaves every other entry reachable |
| `HashTables.NotFound` | Cable/Expat/xmlparse.c:4239-4246 | an empty slot on the way means that the name is not in the table |
| `Transcoding.Drain` | Cable/Expat/xmltok.c:476-537 | any well-formed UTF-16, through any windows of at least four bytes: the calls end and their output is the UTF-8 of the code points |
| `Transcoding.ToUtf8` | Cable/Expat/xmltok.c:476-537 | one call converts exactly the characters that have room |
| `Transcoding.EncodesOne` | Cable/Expat/xmltok.c:487-533 | the bytes put together from the fields of one or two units are those of XmlUtf8Encode |
| `Transcoding.ToUtf16` | Cable/Expat/xmltok.c:283-319 | for well-formed input and any room, turn by turn: where the loop ends, the characters that fit are converted; it ends within as many turns as there are characters, or never |
| `Transcoding.EndsIfNeverStuck` | Cable/Expat/xmltok.c:289-316 | the loop, from its start, ends if and only if it never comes to a character of four bytes with exactly one place left |
| `Transcoding.FourBytesOnePlace` | Cable/Expat/xmltok.c:299-303 | one such character and room for one unit: the loop never ends |
| `Transcoding.TurnConverts` | Cable/Expat/xmltok.c:289-316 | a turn of the loop converts the next character, or changes nothing, exactly in that case |
| `Transcoding.DecodesOne` | Cable/Expat/xmltok.c:290-315 | one character decoded from its UTF-8 bytes |
| `Transcoding.RoundTrip` | Cable/Expat/xmltok.c:283-319 | with enough room the second conversion undoes the first |
| `TypeSystem.TypeSystem.EqualIffSame` | Cable/CxxTypes/cxxType.h:77-78 | after every history of factory calls two returned objects are the same exactly when they stand for the same type |
| `TypeSystem.SameShapeSameObject` | Cable/CxxTypes/cxxTypeSystem.cxx:58-279 | types of the same structure, classes compared by name, are one object |
| `TypeSystem.TypeSystem.GetArrayType` | Cable/CxxTypes/cxxTypeSystem.cxx:60-81 | the object for that type, known or new; no other object appears or changes |
| `TypeSystem.TypeSystem.GetClassType` | Cable/CxxTypes/cxxTypeSystem.cxx:93-112 | the class of that name, known or new; merging never takes copyability back, never shortens a list of parents, and touches no other class |
| `TypeSystem.TypeSystem.GetEnumerationType` | Cable/CxxTypes/cxxTypeSystem.cxx:121-138 | the object for that type, known or new; no other object appears or changes |
| `TypeSystem.TypeSystem.GetFunctionType` | Cable/CxxTypes/cxxTypeSystem.cxx:147-169 | the object for that type, known or new; no other object appears or changes |
| `TypeSystem.TypeSystem.GetFundamentalType` | Cable/CxxTypes/cxxTypeSystem.cxx:178-195 | the object for that type, known or new; no other object appears or changes |
| `TypeSystem.TypeSystem.GetPointerType` | Cable/CxxTypes/cxxTypeSystem.cxx:204-221 | the object for that type, known or new; no other object appears or changes |
| `TypeSystem.TypeSystem.GetPointerToMemberType` | Cable/CxxTypes/cxxTypeSystem.cxx:230-253 | the object for that type, known or new; no other object appears or changes |
| `TypeSystem.TypeSystem.GetReferenceType` | Cable/CxxTypes/cxxTypeSystem.cxx:262-279 | the object for that type, known or new; no other object appears or changes |
| `TypeSystem.Type.MergeClassInformation` | Cable/CxxTypes/cxxClassType.cxx:74-82 | copyable once is copyable for ever; the longer list of parents stays |
| `QualificationConversion.IsValidQualificationConversion` | Cable/CxxTypes/cxxConversions.cxx:92-147 | section 4.4 paragraph 4 of ISO C++98: true exactly when the types are similar and the qualifiers of all levels obey the rule |
| `QualificationConversion.ConvertsOnce` | Cable/CxxTypes/cxxConversions.cxx:92-147 | the rule on the types as they are written, pointer by pointer: no qualifier of the type pointed to is lost, and what is behind it may differ only under const |
| `QualificationConversion.ConvertsReflexive` | Cable/CxxTypes/cxxConversions.cxx:92-147 | every type converts to itself |
| `QualificationConversion.ConvertsTransitive` | Cable/CxxTypes/cxxConversions.cxx:92-147 | conversions compose |
| `QualificationConversion.ConvertsAntisymmetric` | Cable/CxxTypes/cxxConversions.cxx:92-147 | types that convert to each other are the same |
| `ClassHierarchy.GetAllSuperclasses` | Cable/CxxTypes/cxxClassType.cxx:117-150 | exactly the classes for which IsSubclassOf holds, each once |
| `ClassHierarchy.SubclassTransitive` | Cable/CxxTypes/cxxClassType.cxx:157-181 | a superclass of a superclass is a superclass |
| `CvTypeWriters.CvTypeWriter.Add` | Cable/Generators/cableCvTypeWriter.cxx:100-174 | adds exactly the types the given one needs that are not there; the ordering is only extended, has no duplicates, and has every type after all it requires; the recursion ends for acyclic inheritance |
| `CvTypeWriters.CvTypeWriter.AddFunctionTypes` | Cable/Generators/cableCvTypeWriter.cxx:177-189 | return and argument types |
| `CvTypeWriters.CvTypeWriter.WriteInitializations` | Cable/Generators/cableCvTypeWriter.cxx:192-346 | one statement for each type, in order, naming exactly the types that it is made of; no type object is initialised twice, and each is initialised after all the objects its statement names |
| `CvTypeWriters.PartsComeFirst` | Cable/Generators/cableCvTypeWriter.cxx:100-174 | on the constructors of types: elements, targets, classes of members, arguments and return types, bases of a class, and the type without its qualifiers come earlier |
| `CvTypeWriters.OrderedHasNeeded` | Cable/Generators/cableCvTypeWriter.cxx:100-174 | the types of an ordering are closed under need, which is why a type that is there can be skipped |
| `CvTypeWriters.RequiredIsLower` | Cable/Generators/cableCvTypeWriter.cxx:114-170 | every type that is added first is lower in a well-founded order |
| `TclGenerators.TclGenerator.WriteGroupTypeHandlers` | Cable/Generators/cableTclGenerator.cxx:851-877 | on the constructors of types: for each collected class, superclass and constness exactly two conversions are registered, from the class to an unqualified reference to the superclass and from an unqualified pointer to the class to one to the superclass, and no others; every type a registration names has been collected |
| `TclGenerators.BothRegistered` | Cable/Generators/cableTclGenerator.cxx:851-947 | both conversions of each pair of a collected class and a superclass are among the registrations |
| `TclGenerators.RegisteredTypesCollected` | Cable/Generators/cableTclGenerator.cxx:905-945 | the recursive walk has added every type that the registrations of the breadth-first search name |
| `TclGenerators.TclGenerator.AddSuperclassCvTypes` | Cable/Generators/cableTclGenerator.cxx:573-590 | of the class and all its superclasses: the class, references and pointers to it, plain and to const; with what these need, and no others |
| `TclGenerators.TclGenerator.FindReturnCvTypes` | Cable/Generators/cableTclGenerator.cxx:494-533 | the type with what it needs, and the family of the class it is, refers to or points to; no others |
| `TclGenerators.TclGenerator.FindClassCvTypes` | Cable/Generators/cableTclGenerator.cxx:440-468 | the class, the classes its public functions return, and all types these functions mention, with what they need; no others |
| `TclGenerators.TclGenerator.FindFunctionCvTypes` | Cable/Generators/cableTclGenerator.cxx:471-491 | every type a function mentions is collected, and the class it returns; no others |
| `TclGenerators.TclGenerator.FindCvTypes` | Cable/Generators/cableTclGenerator.cxx:430-438 | the same for all wrapped classes |
| `BaseClasses.GetAllBaseClasses` | Cable/Parsers/cableClass.cxx:158-166 | appends the direct bases, then all bases of each |
| `BaseClasses.AllBasesFollowed` | Cable/Parsers/cableClass.cxx:150-166 | every occurrence of a class in the list is followed by each of its bases |
| `BaseClasses.AllBasesAreSuperclasses` | Cable/Parsers/cableClass.cxx:150-166 | the list has exactly the superclasses |
| `SwigOrder.CableSwig.ProcessSource` | Executables/CableSwig.cxx:1381-1387 | over a whole run, whatever the order of the sets: exactly the classes asked for, what has to be imported for them and the bases of both are marked, each once and after all its direct and indirect bases, and none is skipped with an error |
| `SwigOrder.CableSwig.CreateSwigClassInNamespace` | Executables/CableSwig.cxx:664-677 | a class is marked once, and its node is made then or never |
| `SwigOrder.CableSwig.DetermineClassesToWrap` | Executables/CableSwig.cxx:1000-1044 | included are the classes of the typedefs, each under its first typedef, and imported is what they need: with a class, every class that one of its methods returns or takes, as itself, by reference, by pointer or by reference to a pointer; and each class is included, or a base of one there, or used by one there in one of these ways |
| `SwigOrder.CableSwig.ProcessImportedClasses` | Executables/CableSwig.cxx:1048-1121 | marks the imported classes and all their bases, bases first |
| `SwigOrder.CableSwig.ProcessIncludedClasses` | Executables/CableSwig.cxx:1128-1195 | marks the included classes and all their bases, bases first |
| `SwigOrder.CableSwig.ProcessBases` | Executables/CableSwig.cxx:1133-1181 | the list of bases read backwards |
| `SwigOrder.NodesAfterBases` | Executables/CableSwig.cxx:1048-1195 | in the tree the node of a class comes after the nodes of all its bases that have one, and each is wrapped, imported or ignored as the tables say, whichever loop made it |
| `SwigOrder.NodesHandedOver` | Executables/CableSwig.cxx:1048-1195 | exactly the marked classes that are not nested have a node: wrapped under its typedef if the class is included and has one, else imported from its group under the name the group has for it, else ignored |
| `SwigOrder.CableSwig.AddClassToBeImported` | Executables/CableSwig.cxx:957-986 | the class, its bases up to the first that is there, and what all of these use |
| `SwigOrder.CableSwig.AddImportReturnTypesAndArguments` | Executables/CableSwig.cxx:939-954 | the classes of the return type and the arguments of each method, in order |
| `ImportClosure.AllAdded` | Executables/CableSwig.cxx:957-986 | a whole run of additions is closed under use and contained in every closed set that has the classes asked for; with single inheritance it is also closed under bases |
| `ImportClosure.RunMeans` | Executables/CableSwig.cxx:920-986 | on the constructors of types, for a whole run: with a class of the set every class is there that one of its methods returns or takes as C, C&, C* or C*&, under any qualifiers; and every class of the set was asked for, is a base of one in it, or is used by one in it in one of these ways |
| `LostBases.ClosedIffNothingLost` | Executables/CableSwig.cxx:957-986 | a whole run, with methods and several parents: the result is closed under bases and use if and only if every base behind a place where a loop stopped got there in another way |
| `LostBases.ClassClosedIff` | Executables/CableSwig.cxx:964-984 | one class without methods: the result has all bases if and only if no base that is absent comes behind the first one in the list that is there |
| `LostBases.RunLosesParent` | Executables/CableSwig.cxx:969-984 | from the empty set: asked for its first parent and then for itself, a class does not get a parent that is no base of the first |
| `LostBases.SecondParentIsLost` | Executables/CableSwig.cxx:969-984 | a concrete hierarchy of three classes for which it happens |
| `StraightHierarchies.SafeIffStraight` | Executables/CableSwig.cxx:957-1044 | the hierarchies for which every run ends with all bases and all classes used, whatever methods the classes have and whatever is asked for: exactly those in which a class with several direct bases names all its bases, each in front of those it derives from; and it is enough that runs without methods do |
| `StraightHierarchies.SameRun` | Executables/CableSwig.cxx:957-986 | in such a hierarchy a run adds what it would add if each class had its first direct base only |
| `StraightHierarchies.StraightRuns` | Executables/CableSwig.cxx:957-1044 | so every run, with methods, is closed under bases and use |
| `ImportClosure.ClassUsesDone` | Executables/CableSwig.cxx:939-986 | nothing used by an added class is forgotten, although the recursion meets classes that are still being worked on |
| `ImportClosure.ClassBasesDone` | Executables/CableSwig.cxx:957-986 | where the loop stops, the rest of a single line of bases is there or on its way |

## Left out

Expat:

- Everything before and after the document element: the prolog, markup declarations other than element declarations, and
  the epilog. The epilog processor is a sink for what it is given.
- ContentParser.Parser.OnEntityReference: no external entity handler is set, so a reference to an external entity is passed over, as the code does.
- ContentParser.Parser.OnStartTag: takes the treatment of the attributes of a tag as a parameter; it is modelled in `StartTags` and `AttributeLists`, and namespace processing in `NamespaceStack`.
- ContentParser.Parser.OnEmptyElement: the same.
- `XML_DTD` branches, unknown encodings, and the detection of encodings are not part of this model, nor is the initialisation
  of a parser for an external entity before its first token.
- ContentMeaning.RunMeans: for UTF-8 documents and entities, read in one call; other ways of cutting them are in `ChunkInvariance`. Events told in front of an error are not compared. What the attributes of a tag are is a parameter here too; for that see `TagTexts.TagMeans`.
- LegalCharacters.TokensAreLegal: the bitmaps of name characters are arbitrary in this model; that they have no illegal character, which the contract takes as a condition for names, is so in `Cable/Expat/nametab.h`, where the pages of surrogates, U+FFFE and U+FFFF are empty, but not part of this model.
- Refusals.StuckIsRefused: about markup in UTF-8; where a text that is not UTF-8 is refused is said by the automaton on bytes only.
- Handlers: start, end and character handlers are set, the default handler is not. Processing instructions and comments are
  reported as raw bytes.
- Adjacent character data counts as one event, since the parser may cut it anywhere.
- Allocation failures in the buffer code of `XML_Parse` and `XML_GetBuffer`, and in `doContent`.
- ElementDeclaration.Declarations.OpenGroup: what the code does with an index that was never set is not modelled; the model stops there, with `PathLost`.
- The UTF-8 names of element declarations are strings, so that the length counted from the token is the length stored.
- AttributeStore.NextValueTok: requires text that ends between characters, because the code reads on behind it otherwise. The values of accepted tags are such text (`TagAttributes.FastPath`); that the text of entities is, is taken from the code that stores it.
- AttributeLists.Attributes.Finish: which names are expanded is said, not how the expanded name is spelled; that is in `NamespaceStack.Parser.ExpandName` for element names.
- StartTags.Reader.StoreStartTag: the records of attribute names are found by a function that stands for the lookup; that missing ones are created is not modelled.
- Linked lists of tags and bindings are sequences in `NamespaceStack`. Free tags are not modelled.
- The overlay of the list of attributes on the array of the tokenizer: they are two sequences.
- Arithmetic is unbounded: sizes do not overflow.
- Line and column numbers, default handlers, byte-order marks, `utf8_toUtf8`, the Latin-1 conversions and
  `utf8_toUtf16` on malformed input.

C++ types and generators:

- Class hierarchies are acyclic, as C++ has them; `rank` in the contracts witnesses it and is ghost.
- Object lifetimes and reference counts; names of declarations; the conversions other than qualification conversions.
- The text that generators write. Of a generated statement the model keeps which type objects it sets and names; of a node
  given to SWIG, its class and how it is treated.
- TclGenerators.TclGenerator.WriteGroupTypeHandlers: without the loops that register destructors and enumerations.
- TclGenerators.TclGenerator.FindReturnCvTypes: without the sets of enumerations.
- TclGenerators.TclGenerator.FindFunctionCvTypes: without the sets of enumerations.
- Packages in the Tcl generator; SWIG itself, index files, command lines, processes and file systems.
