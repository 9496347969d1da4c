# Verification of the offline engines

These modules model the parts of the black-box Flatpak suite that compute: the interface
catalogue generator, the coverage accounting, the OCI test registry, the transaction trace monitor,
XML normalisation, process-tree walks, the history check and the console printer. Each operation
that updates state in the original is a method here, over the same fields, proved equal to a
specification function; the theorems are about those functions, for all inputs, all reports and all
interleavings. Exceptions and failed assertions are `None` or `false` results. The walks over the
process table say in their contracts what they assume of the snapshot they read.

| component | modules |
|---|---|
| shared definitions | Options, Sequences, Text |
| comments and literals of C text | Lexer, WrittenText |
| splitting at top-level delimiters, C tables | Splitter, SplitterLaws, SplitStability, CArray, CArrayFields |
| Meson build files | Meson, MesonGrammar, MesonLayout, MesonText, MesonInputs, MesonFields, MesonCalls, MesonLaws, MesonExample |
| XML includes and entities | XmlDocuments, XmlExpansion, XmlLaws, XmlPlaces, XmlReferences, XmlTrails |
| option entries and signal registrations | OptionTerms, Surfaces, OptionLaws, Signals, SignalLaws, Generator |
| coverage tables, credit and counts | Attribution, AttributionLaws, Coverage, CoverageModel, MappingLaws, CoverageLaws, CreditLaws, CoverageTotals, CoverageReports |
| recorded option invocations | OptionInvocation |
| OCI registry | Registry, RegistryLayouts, RegistryPaths, RegistryRuns |
| transaction callbacks | TransactionTrace, TraceLanguage |
| canonical XML | Ordering, CanonicalXml, CanonicalXmlLaws |
| process trees | ProcessTree |
| history rows | WordSplit, History, HistoryLaws, HistoryRows |
| console lines and table cells | ConsoleText, TerminalCommands, MarkdownCell |

Two kinds of theorems stand beside each operation: laws of what it computes (round trips, invariants over
runs, conditions of acceptance), and a reading of its specification off the text or the fields of its
input.

Where a promised property fails for some inputs, a theorem states the exact condition and a lemma
gives an input on which it fails:

- `CArray.TableRoundTrip`: a printed table is read back exactly if no `}` in its body is followed by
  whitespace and `;`, because the array pattern ends at the first such place;
  `CArray.SomeTableIsCutShort` is such a table.
- `XmlTrails.CleanExactly`: no include or placeholder is left below the root of a document exactly if
  no trail of ids leads to one through the documents it brings in and the elements their pointers
  select, because only children of elements are replaced; `XmlReferences.NoReferenceLeft` and
  `XmlReferences.ReferenceIsLeft` are the two directions in terms of roots alone, and
  `XmlReferences.SomeReferenceIsLeft` shows an include of a document whose root is an include.
- `OptionInvocation.InjectedOptionIsRecognised`: an injected option is recognised exactly if the call
  is at the start of the command line or the first argument is another program;
  `OptionInvocation.SomeInjectionIsMissed` is a command line on which it is not.
- `ConsoleText.LengthIsBounded` and `ConsoleText.SafeTextIsIdempotent`: below a limit of three the
  dots do not fit; both lemmas name the texts for which the claim still holds, and
  `ConsoleText.SomeShortLimitFails` is one for which it does not.
- `MesonLaws.StatementOrderIsImmaterial`: a reordered build file is still accepted exactly if each
  source list is assigned before it is extended and no statement that ends with the name of a call
  stands before one that begins with a parenthesis, because calls are also counted across line
  ends. `MesonExample.SomeReorderingsAreRejected` gives an accepted text and an order of its
  statements for each of the two failures.
- `MesonLayout.ReadsExactlyWhatIsWritten`: the accepted texts that close their quotes are exactly the
  written source expressions; `MesonLayout.SomeOpenTextIsRead` is an accepted text with mixed marks.

Python's string operations (`strip`, `split`, `isspace`) are written out in Text and WordSplit.
Regular expressions are scanners over the text. Facts of Unicode (case folding, word and digit
classes, categories), the hash function and JSON readers are parameters.

## Model

| member | source | states |
|---|---|---|
| Lexer.UncommentKeepsOffsets | catalogue.py:130-137 | length and every newline position are kept, everything outside comments is copied, comments are blank, for any text including unterminated quotes and comments |
| Lexer.OpenQuoteStaysOpen | catalogue.py:130-137 | a quote that the text leaves open is not closed by what comment removal leaves |
| Lexer.OpenBlockStaysOpen | catalogue.py:130-137 | an unterminated block comment is not closed by comment removal |
| Lexer.Relex | catalogue.py:130-137 | lexing the output gives the same tokens with each comment replaced by blanks |
| Lexer.UncommentIsIdempotent | catalogue.py:130-137 | no comment token is left and a second pass changes nothing |
| Lexer.UncommentKeepsLiterals | catalogue.py:130-137 | the string and character literals are those of the original, in order |
| WrittenText.CommentsBecomeSpaces | catalogue.py:130-137 | any text of code, closed literals with escapes, block comments and line comments keeps its code and its literals and has spaces and line ends in place of both kinds of comment |
| Splitter.SplitC | catalogue.py:140-158 | the loop over `stack`, `start` and `parts` computes the recursive splitting, errors included |
| SplitterLaws.SplitsExactlyBalanced | catalogue.py:147-156 | splitting succeeds exactly if the brackets outside literals form a word of the three-bracket grammar |
| SplitterLaws.SlicesRebuild | catalogue.py:153-157 | the untrimmed slices interleaved with the delimiter are the text |
| SplitStability.PartSplitsToItself | catalogue.py:140-158 | every returned part splits to itself alone |
| SplitStability.JoinedPartsSplitAgain | catalogue.py:140-158 | the parts joined by the delimiter split to the same parts, even with quotes left open |
| CArray.Array | catalogue.py:161-170 | the row loop computes the table of the first literal array of that name, or raises |
| CArrayFields.ArrayByText | catalogue.py:161-170 | the table of a text: the rows of the first written header with an end, up to its first end, each in braces, with the parts between them |
| CArrayFields.HeaderByText | catalogue.py:162 | a header is the name at an edge of a word, empty brackets, an equals sign and a brace, with any whitespace between them |
| CArray.FieldCriterion | catalogue.py:140-170 | a text that splits to itself alone and closes its quotes can be a table field |
| CArray.PrintedBodyReads | catalogue.py:165-170 | reading the printed rows of a table gives the table |
| CArray.TableRoundTrip | catalogue.py:161-170 | printing a table as a C array and reading it returns the rows if and only if no brace of the body ends it early |
| CArray.SomeTableIsCutShort | catalogue.py:161-170 | a table of one literal that holds a brace and a semicolon is not read back |
| Meson.Evaluation.SourceExpression | catalogue.py:215-231 | terminates on every text, accepts exactly what parses, and adds exactly the C files the expression denotes |
| Meson.Evaluation.SourcePart | catalogue.py:217-231 | the same for one operand: literal, list, generated or referenced |
| Meson.DenotesItsCFiles | catalogue.py:220-222 | an expression denotes a name exactly if it ends in `.c` and stands in the expression as a file |
| MesonFields.FileByText | catalogue.py:219-220 | a file literal is a quoted name with the ending of a C source or header |
| MesonFields.GeneratedByText | catalogue.py:207-228 | the generated targets, by name or by name and number |
| Meson.PartsAreNotLonger | catalogue.py:140-158 | no part is longer than the split text, the measure of the recursion |
| MesonLayout.LayoutIsRead | catalogue.py:215-231 | an expression written with any whitespace, either quotation mark and empty places is read as what is written |
| MesonLayout.ReadsExactlyWhatIsWritten | catalogue.py:215-231 | a text is read as an expression and closes its quotes if and only if it is one of the ways to write that expression |
| MesonLayout.SomeOpenTextIsRead | catalogue.py:219-231 | a file name between two different marks is read although it leaves a quote open |
| MesonLayout.PrintedExpressionReads | catalogue.py:215-231 | every expression of the grammar, printed, is read as itself |
| MesonGrammar.ReadExpressionIsGrammatical | catalogue.py:215-231 | whatever text is accepted, what is read from it belongs to the grammar |
| MesonLayout.AcceptedTextHasNormalForm | catalogue.py:215-231 | accepted text can be printed in a normal form that reads the same |
| MesonText.OnlyCommentsAreRemoved | catalogue.py:181-185 | exactly the comments go, and no number sign within quotes counts as one |
| MesonInputs.Discovery.Assign | catalogue.py:187-191 | collects the definitions of every name in order |
| MesonText.WrittenAssignmentReads | catalogue.py:189-191 | a written assignment is read back with its name, operator and value, whatever the spacing |
| MesonInputs.Discovery.Headers | catalogue.py:192-205 | the names of the one literal header list, non-empty and distinct, or nothing |
| MesonInputs.Discovery.SourceList | catalogue.py:233-238 | accepts a source list exactly if it is assigned once and first, and adds the union of what its definitions denote |
| MesonInputs.Discovery.Installer | catalogue.py:243-250 | accepts exactly the installation of the header list with keyword arguments |
| MesonInputs.Discovery.Library | catalogue.py:251-264 | adds the union of the C files of a library's positional and `sources` arguments |
| MesonText.WrittenCallReads | catalogue.py:243-254 | a written call is read back with its arguments |
| MesonText.WrittenKeywordReads | catalogue.py:246-262 | a written keyword argument is read back |
| MesonInputs.MesonInputs | catalogue.py:179-272 | succeeds exactly on the supported subset; the headers are those of the one list, and the sources are the strictly sorted listing of the names that end in `.c` and that a source list or a library argument names |
| MesonInputs.SourcesAreNamed | catalogue.py:233-264 | a C source is a name that ends in `.c` and stands in an expression of a source list, of an unnamed library argument or of the keyword `sources` |
| MesonFields.AcceptedByFields | catalogue.py:186-272 | acceptance, by the written statements: headers, sound source lists, one installation and some libraries with sound arguments, as many calls in the text, and some C file |
| MesonFields.AssignmentByText | catalogue.py:189 | a statement is an assignment exactly if it is written as a name, an operator and a value |
| MesonFields.LibraryByText | catalogue.py:251-254 | a statement declares a library exactly if it is a call of one of the two functions, assigned to a name or not |
| MesonFields.HeadersByText | catalogue.py:192-205 | the headers are the distinct quoted names, ending in `.h`, of the one plain bracketed list |
| MesonFields.InstallerByParts | catalogue.py:245-249 | the installation takes the header list and keyword arguments |
| MesonFields.LibraryByParts | catalogue.py:256-264 | a library takes a quoted name and expressions, other keywords being passed over |
| MesonFields.CallsAreCounted | catalogue.py:265-268 | calls are counted by the places of the text at which one begins |
| MesonText.NothingIsRemoved | catalogue.py:181-185 | a text without a number sign is its own clean text |
| MesonCalls.JoinedCalls | catalogue.py:265-268 | the calls counted in a text are at least those counted in its statements, and exactly those unless a name ends one statement and a parenthesis begins the next |
| MesonCalls.CallsOfStatements | catalogue.py:241-268 | the count over the text is the number of call statements if and only if no neighbours form a call together and each statement shows one call or none |
| MesonLaws.AcceptedByStatements | catalogue.py:186-272 | acceptance of a text, put in terms of its statements and which of them are neighbours |
| MesonLaws.StatementOrderIsImmaterial | catalogue.py:186-272 | a text with permuted statements has the same headers and sources, and is accepted if and only if lists are still assigned before extended and no two neighbours form a call together |
| MesonLaws.OrderOfDefinitionsMatters | catalogue.py:186-272 | where no statement begins with a parenthesis, only the order of the definitions of a list decides |
| MesonExample.SomeReorderingsAreRejected | catalogue.py:233-268 | a text of seven statements is accepted; with the list extended too early, or with `library` at the end of the line before a parenthesis, it is not |
| XmlExpansion.XmlNode.Remove | catalogue.py:330-358 | removes the first occurrence of the child by identity |
| XmlExpansion.ReplaceChild | catalogue.py:358-360 | one remove and the reversed inserts put the entries in place of the child, in order |
| XmlExpansion.Included | catalogue.py:337-357 | expanding an include target and selecting elements of it |
| XmlExpansion.SpliceChildren | catalogue.py:328-360 | the reversed in-place loop leaves the child list equal to the flat map of the original children |
| XmlExpansion.SpliceAll | catalogue.py:327-360 | processing a snapshot of the elements splices every original parent |
| XmlExpansion.ReadEntities | catalogue.py:314-319 | every declared entity is expanded, the last declaration of a name wins |
| XmlExpansion.Xml | catalogue.py:308-361 | terminates, and the returned element unfolds to the specified expansion; it fails exactly when the specification does |
| XmlPlaces.PlainDocument | catalogue.py:308-361 | a document without references expands to itself |
| XmlPlaces.ElementInPlace | catalogue.py:327-360 | an element keeps its place, with its own head and its children expanded |
| XmlPlaces.EntityInPlace | catalogue.py:329-332 | a placeholder gives its place to the document of its last declaration |
| XmlPlaces.IncludeInPlace | catalogue.py:333-360 | an include gives its place to the selected elements of its target, in their order |
| XmlTrails.SelectedInOrder | catalogue.py:339-357 | an id selects the elements that have it in document order, a query what it finds in its order, and neither nothing |
| XmlLaws.ExpansionIsAcyclic | catalogue.py:309-338 | if a document expands, no chain of references from it meets an ancestor or itself |
| XmlLaws.ExpandsExactlyIfAcyclic | catalogue.py:308-361 | a document expands if and only if every chain of references from it is simple and ends in a sound document |
| XmlLaws.ExpansionIsGenuine | catalogue.py:325-360 | every element of the result is an element that the document it is marked with holds |
| XmlReferences.CleanByReplacements | catalogue.py:327-361 | nothing is left below the root of one document if and only if every attached reference is replaced by ordinary elements only |
| XmlReferences.NoReferenceLeft | catalogue.py:327-361 | nothing is left below the root when the documents at the ends of the reference chains have ordinary roots |
| XmlReferences.ReferenceIsLeft | catalogue.py:327-361 | a chain of attached references without a pointer that ends in another kind of root leaves a reference |
| XmlTrails.TrailsOfExpansion | catalogue.py:327-361 | the trails of ids that lead to references in an expansion are those read off the documents, with what entities, whole includes, ids and queries bring in |
| XmlTrails.CleanExactly | catalogue.py:327-361 | an expansion is free of references below its root if and only if no trail leads to one |
| XmlReferences.SomeReferenceIsLeft | catalogue.py:327-361 | including a document whose root is an include leaves that include |
| Generator.Generator.Add | catalogue.py:303-306 | a second entry with an identifier raises and changes nothing |
| Generator.Generator.CollectNames | catalogue.py:367-383 | the distinct spellings of the terms in order of first appearance; raises exactly on a dash without markup and on a marked option that is no spelling |
| Generator.Generator.AddTerm | catalogue.py:370-383 | the same for one term |
| OptionTerms.SpellingIsRead | catalogue.py:375 | a spelling is read exactly from a text that begins with it and goes on with nothing, a value, whitespace or a bracket |
| OptionTerms.OptionsAreRead | catalogue.py:370-383 | the options of a term are read as a list of names exactly if each spells its name or has no dash |
| OptionTerms.TermByText | catalogue.py:370-383 | when a term raises, and the names it gives otherwise |
| OptionTerms.EntriesInOrder | catalogue.py:367-391 | the definitions are read in their order up to the first that raises |
| OptionTerms.WrittenOptionSpells | catalogue.py:374-375 | an option written with whitespace and a value around it spells its name |
| OptionTerms.LongByText | catalogue.py:384 | a long spelling is two dashes and anything |
| OptionTerms.LiteralByText | catalogue.py:173-176 | a registered name is read exactly from letters, digits, underscores and dashes between quotation marks |
| Generator.Generator.MergeSpelling | catalogue.py:392-428 | creating or merging one spelling is one step of the merge |
| Generator.Generator.Options | catalogue.py:363-431 | the loops over definitions and spellings compute the merge of all entries, exclusions and spellings included, up to the first definition that cannot be read |
| OptionLaws.MergeIsClosedForm | catalogue.py:384-428 | after any entries aliases, co-documented options and sources equal their closed forms, sorted and without duplicates |
| OptionLaws.DocumentedWithIsSymmetric | catalogue.py:404-415 | being documented together stays symmetric on the options of a command, whatever was in the catalogue before |
| OptionLaws.MergeIgnoresOrder | catalogue.py:400-415 | entries in another order give the same aliases and co-documented options |
| OptionLaws.MergeEntriesFrame | catalogue.py:405-406 | entries of other interfaces stay as they were |
| OptionLaws.ExclusionsByEntries | catalogue.py:385-423 | the pass excludes exactly the entries with short spellings only and the repeated definitions of a long one |
| Generator.Generator.RegisterSignals | catalogue.py:599-657 | completes exactly if the registrations and the documentation can be paired, and lists one entry for each pair |
| Generator.Generator.RegisterSignal | catalogue.py:612-652 | one registration consumes exactly its nearest documentation block or is excluded as private |
| Signals.PairingIsBijection | catalogue.py:602-657 | public registrations and documented public signals are in an order-preserving bijection agreeing on owner and name |
| Signals.EachSignalIsListed | catalogue.py:647-652 | each public registration has an entry of its own |
| SignalLaws.CompletesByOffsets | catalogue.py:599-657 | the pass completes exactly if every registration is by the function itself, of a literal name, inside the last class before it, and, for a public class, fits the last documentation before it, and every public documentation is used |
| SignalLaws.SignalEntry | catalogue.py:647-652 | kind, name, owner and both sources of the entry of a public registration |
| SignalLaws.PrivateSignalsAreExcluded | catalogue.py:631-637 | private registrations, and nothing else, are added to the exclusions |
| SignalLaws.InsideByBraces | catalogue.py:626-630 | a registration is inside its class if the code between opens more braces than it closes |
| SignalLaws.SemicolonByPieces | catalogue.py:643-645 | a semicolon outside comments separates documentation and registration |
| CoverageModel.CoverageModel.Verdict | coverage_report.py:323-365 | the tests with their loops over the results give the verdict, the first failing test deciding |
| CoverageReports.VerdictByFields | coverage_report.py:323-365 | each verdict, by the first field of the report that fails, and current exactly if none does |
| CoverageReports.CreditByFields | coverage_report.py:323-365 | credit exists exactly for a report on the unchanged suite that is complete, has one concluded result for each case and none for another, and is attributed |
| AttributionLaws.AttributedByFields | coverage_report.py:112-183 | attribution, field by field of the subject and of the recorded commands |
| CoverageModel.SubjectProblem | coverage_report.py:112-183 | a report has a problem exactly if passed cases lack attribution or command evidence |
| CoverageReports.CreditNeedsSubject | coverage_report.py:112-183 | whatever is earned has a passed case with evidence at its own interface, in a report that names target, adapters, fixture and, for library cases, library with hashes |
| CoverageTotals.SameAttribution | coverage_report.py:112-183 | attribution does not depend on the order of the results |
| CoverageModel.CoverageModel.CollectAssertions | coverage_report.py:259-268 | accepts exactly valid explicit assertions and collects their identifiers |
| CoverageModel.CoverageModel.CollectEquivalents | coverage_report.py:270-280 | accepts exactly valid equivalence checks, none with behavioral credit |
| CoverageModel.CoverageModel.Map | coverage_report.py:239-281 | accepts a mapping exactly if it is valid and then fills the three tables |
| CoverageModel.CoverageModel.MapAll | coverage_report.py:235-281 | the mapping loop accepts exactly the lists whose mappings are valid one after another |
| MappingLaws.MappingByFields | coverage_report.py:239-280 | a mapping is accepted exactly if its case is known and new, it has a reason, and its requirements, assertions and equivalences are given once and allowed |
| MappingLaws.MappingsByFields | coverage_report.py:235-281 | a list is accepted exactly if no case is mapped twice and each mapping would be accepted alone |
| MappingLaws.TablesByMappings | coverage_report.py:257-281 | the tables hold for each case exactly what its mapping lists |
| CoverageModel.CoverageModel.Record | coverage_report.py:399-419 | adds the identifiers to the earned set and the case to the evidence of each |
| CoverageModel.CoverageModel.Exercise | coverage_report.py:373-387 | the equivalences of a passed case whose option was invoked; raises exactly if an identifier does not split |
| CoverageModel.CoverageModel.Credit | coverage_report.py:366-419 | the loop over results fills exactly the specified accounts and status counts |
| CoverageModel.CoverageModel.Summarize | coverage_report.py:313-479 | the summary of the report by the verdict: credit and metrics of a current report, metrics without credit of any other, an exception exactly if an identifier does not split |
| CreditLaws.SummaryByFields | coverage_report.py:313-479 | every metric counts the entries it is named for, planned by the tables and passed by the results |
| CreditLaws.EarnedByFields | coverage_report.py:366-414 | an identifier is earned exactly if a passed result lists it for its case and, where asked, shows it in a trace or a command line |
| CreditLaws.RaisesByFields | coverage_report.py:373-374 | the summary raises exactly for a current report with a passed case that checks an identifier without a dot |
| CreditLaws.StatusesAreCounted | coverage_report.py:369-371 | the statuses are counted as they occur |
| CoverageReports.EveryReportIsAccountedFor | coverage_report.py:203-479 | whatever the accepted tables and the report: credit only if it is current, every metric ordered and unverified without credit, breakdowns adding up, evidence for exactly what is earned and no case named twice |
| CoverageReports.GeneratedCatalogueNeverRaises | coverage_report.py:366-387 | with option identifiers from the generator no report makes the summary raise |
| CoverageReports.ReorderedReportHasSameSummary | coverage_report.py:313-479 | permuting the results of a report changes neither verdict nor metric nor count |
| CoverageReports.MorePassedCasesNeverLower | coverage_report.py:366-479 | of two current reports the one with more passed cases has no lower passed count and the same denominators |
| CoverageLaws.GeneratedOptionsSplit | coverage_report.py:373-375 | equivalence identifiers from the generator always split |
| CoverageLaws.AcceptedTablesAreConsistent | coverage_report.py:203-281 | accepted tables never map across interfaces or profiles and keep equivalences apart from behavior |
| CoverageLaws.EarnedIsGranted | coverage_report.py:369-414 | an identifier is earned if and only if a result grants it |
| CoverageLaws.EvidenceIsExact | coverage_report.py:384-419 | evidence has exactly the earned identifiers and lists the granting cases in report order |
| CoverageLaws.GrantersAreResults | coverage_report.py:384-419 | a case is listed as evidence if and only if its result grants the identifier |
| CoverageLaws.EvidenceNamesNoCaseTwice | coverage_report.py:344-346 | with one result per case no case is listed twice |
| CoverageLaws.RequirementNeedsItsProfile | coverage_report.py:252-257 | a requirement is earned if and only if a passed case is mapped to it, and that case has its interface and profile |
| CoverageLaws.FunctionNeedsItsTrace | coverage_report.py:389-413 | a library function is credited if and only if a passed library case asserts it and its trace shows the call |
| CoverageLaws.SignalNeedsItsTrace | coverage_report.py:394-413 | the same for signals |
| CoverageTotals.EarnedIsPlanned | coverage_report.py:420-426 | what is earned is implemented and lies in its universe, for requirements, surfaces and equivalences |
| CoverageTotals.CreditIsSound | coverage_report.py:100-109 | in every metric passed is at most implemented, which is at most the total |
| CoverageTotals.EquivalenceIsNotBehavior | coverage_report.py:270-279 | a case's equivalence check gives the option no behavioral credit |
| CoverageTotals.EquivalencesNeverCount | coverage_report.py:56-58 | equivalence tables change no earned requirement and no earned interface |
| CoverageTotals.ProfilesAddUp | coverage_report.py:436-440 | the profile metrics of an interface sum to its behavior metric in total, implemented and passed |
| CoverageTotals.CategoriesAddUp | coverage_report.py:441-447 | so do the category metrics |
| CoverageTotals.RequirementsAreCountedOnce | coverage_report.py:428-431 | the two behavior metrics sum to the metric of all requirements |
| CoverageTotals.SurfacesAreCountedOnce | coverage_report.py:432-435 | the four kinds sum to the metric of all surfaces |
| CoverageLaws.OncePerCaseByCount | coverage_report.py:344-345 | the duplicate test by counting keys is exact |
| CoverageTotals.SummaryIgnoresOrder | coverage_report.py:343-448 | permuting results changes neither the verdict nor any metric |
| CoverageTotals.MorePassingNeverLowers | coverage_report.py:366-448 | enlarging the passed cases lowers no passed count and changes no denominator |
| OptionInvocation.InvokedOption | coverage_report.py:76-93 | the scan with early exit decides whether the option leads the arguments of the selected command |
| CreditLaws.InvokedByText | coverage_report.py:76-93 | an option is invoked exactly if the recorded command line, or the inner one at its end, calls the program with the command and only options before it |
| OptionInvocation.PayloadDoesNotCount | coverage_report.py:88-93 | arguments after the first non-option or `--` never change the verdict |
| OptionInvocation.EquivalentDriver.ExternalCall | equivalent_option_scenarios.py:87-100 | injects the options at the first call of the command, counts it and records the inner command line |
| OptionInvocation.RecordedByText | equivalent_option_scenarios.py:87-100 | the options stand behind the first call of the program with the command, the inner command line begins there, and any other command line is recorded as it is |
| OptionInvocation.InjectedOptionIsRecognised | equivalent_option_scenarios.py:90-99 | an injected option is recognised if and only if the call is at offset zero or the first argument is another program |
| OptionInvocation.SomeInjectionIsMissed | equivalent_option_scenarios.py:90-99 | a wrapped call of the program itself hides its injected option |
| OptionInvocation.OptionIdSplitsBack | coverage_report.py:374 | the identifier built by the generator splits back to command and option if and only if the command has no dot |
| OptionInvocation.GeneratedIdSplitsBack | coverage_report.py:374 | for every command the generator can read from a string literal the identifier splits back |
| Registry.Load | oci_registry.py:26-51 | loads an image exactly if the layout is sound, every blob under its own digest |
| RegistryLayouts.LoadedByFiles | oci_registry.py:26-51 | a layout is sound exactly if it lists one manifest, its files hash to their names, and manifest and configuration are among them and readable |
| Registry.Server.constructor | oci_registry.py:55-61 | each name gets a dictionary of its own with the blobs of its image |
| Registry.Server.Publish | oci_registry.py:63-66 | stores the blobs, lists the image, counts; no image and no other name changes |
| Registry.Server.Response | oci_registry.py:68-90 | the reply of every route for the state of the moment, in which all blobs are under their digest |
| RegistryPaths.ReplyByPath | oci_registry.py:68-90 | every reply by the text of the path, with any slashes around it: signature, listing, empty object, blob, manifest or missing |
| RegistryPaths.BlobPath | oci_registry.py:86-87 | the plain path of a blob is answered with the blob exactly if it is stored |
| RegistryPaths.ManifestPath | oci_registry.py:82-85 | the plain path of a manifest, by the listed digest or as the latest |
| RegistryPaths.SignedPath | oci_registry.py:71-72 | a signature is sent exactly under its path, whatever else the path asks for |
| RegistryPaths.PublishedBlobs | oci_registry.py:63-66 | after publishing, the blobs of the image are sent and those stored before under the name |
| RegistryPaths.PublishedManifest | oci_registry.py:63-66 | its manifest is sent as the latest and by its digest, and no earlier one of the name |
| RegistryPaths.OtherNamesAreAnsweredAlike | oci_registry.py:63-66 | requests for other names are answered as before |
| RegistryPaths.PublishedListing | oci_registry.py:63-66 | the listing names the image besides those listed before |
| Registry.RoutedReplyIsTrue | oci_registry.py:79-90 | data is sent exactly for listed manifests and stored blobs, and it hashes to the digest that was listed or asked for |
| RegistryRuns.RunsAreSafe | oci_registry.py:63-90 | in every interleaving of the three writes with readers, listed images are servable, no reader meets a missing key, and nothing servable is lost |
| RegistryRuns.RunsFromTheStartAreSafe | oci_registry.py:55-90 | so every run of a registry of valid images is safe |
| RegistryRuns.AdvertisedBlobsStayServable | oci_registry.py:59-64 | a blob of a listed image is served in every later state, with bytes that hash to its digest |
| RegistryRuns.AnswersHashToTheirDigest | oci_registry.py:80-87 | an answer decided before a publish and fetched after it still hashes to its digest |
| RegistryRuns.PublishIsItsSteps | oci_registry.py:63-66 | uninterrupted, the single writes lead to the view of the publish call |
| RegistryRuns.ResponseIsItsSteps | oci_registry.py:68-90 | uninterrupted, lookup and fetches give the reply of the response |
| TransactionTrace.Trace.OnReady | client-transactions.c:75-86 | fixes the plan once |
| TransactionTrace.Trace.OnNewOperation | client-transactions.c:186-207 | starts only the next planned operation, when none is active |
| TransactionTrace.Trace.OnChanged | client-transactions.c:138-164 | accepts a progress report exactly if it follows the last one |
| TransactionTrace.Trace.OnDone | client-transactions.c:210-224 | finishes only the active operation |
| TransactionTrace.Trace.OnFailed | client-transactions.c:227-245 | the same for a failed operation |
| TransactionTrace.Monitor | client-transactions.c:505-524 | a run with its final checks is accepted exactly if the specification accepts it |
| TraceLanguage.AcceptsExactlyTheLanguage | client-transactions.c:75-245 | the monitor accepts exactly the runs of a written-out language, bytes never decreasing within an operation in progress mode |
| TraceLanguage.BytesNeverDecrease | client-transactions.c:138-164 | of two reports of one operation in progress mode the later has no fewer bytes, and the start time stays from the first bytes on |
| TraceLanguage.AcceptedRunFollowsPlan | client-transactions.c:512-520 | a success starts and finishes every planned operation once in plan order, a failure a first part of the plan |
| Ordering.ExchangeSort | client-queries.c:52-59 | the in-place exchange sort yields the sorted permutation |
| Ordering.SortIsCanonical | client-queries.c:48-59 | two lists sort alike if and only if they are permutations |
| Ordering.OrderByFirstDifference | client-queries.c:54 | the order of the sort: a beginning, or smaller at the first difference |
| CanonicalXml.Normalizer.XmlStart | client-queries.c:41-63 | appends the tag with its attributes in sorted order |
| CanonicalXml.Normalizer.XmlText | client-queries.c:74-87 | appends escaped text unless it is all whitespace |
| CanonicalXml.XmlNormalized | client-queries.c:90-101 | the callbacks in order give the rendering of the event stream |
| CanonicalXmlLaws.NormalFormIsCanonical | client-queries.c:40-101 | two streams normalise to the same string if and only if they agree up to attribute order, dropped whitespace text and merged adjacent text |
| CanonicalXmlLaws.OnlyBlankTextIsDropped | client-queries.c:80-86 | a text event changes the normal form exactly if some character is no space, tab, line feed, carriage return or form feed |
| CanonicalXmlLaws.TextIsKept | client-queries.c:82-86 | two such texts between the same events give the same form only if they are equal |
| CanonicalXmlLaws.EscapeByTable | client-queries.c:84 | markup, quotation marks and control characters are written as references, all else as it is |
| CanonicalXmlLaws.TagsByText | client-queries.c:41-72 | the tags as they are written, with sorted attributes |
| ProcessTree.Descendants | parent_lifetime_scenarios.py:33-43 | ends on any table; on a consistent acyclic one it succeeds exactly below the limit and lists each descendant once, parents first |
| ProcessTree.MeetsAncestor | client-queries.c:912-927 | the upward walk meets the outer process if and only if it is an ancestor, and fails at a process that is its own parent |
| ProcessTree.KillOrder | parent_lifetime_scenarios.py:60-63 | only live processes are stopped; on a consistent snapshot every live descendant but the root once, no process before its children |
| WordSplit.WordsOfJoin | maintenance_scenarios.py:320-327 | splitting undoes joining with single blanks |
| History.Lifecycle | maintenance_scenarios.py:333-350 | collects the events exactly if every row is acceptable |
| History.TakeElement | maintenance_scenarios.py:351-354 | consuming up to the first match loses no embedding |
| History.Contract | maintenance_scenarios.py:330-354 | succeeds if and only if the rows are acceptable and the steps are a subsequence of the events |
| HistoryRows.RowByColumns | maintenance_scenarios.py:334-350 | a row is acceptable exactly if it has three columns and names the selected installation, or records no step at a place named by its path |
| HistoryRows.EventByColumns | maintenance_scenarios.py:343-350 | the step of a row is its second column with the concept its label names |
| HistoryRows.ChangeByText | maintenance_scenarios.py:313-327 | a label names a concept exactly if it is a word for it, alone or behind a word for deployment, with blanks or hyphens around them |
| HistoryLaws.ChangeIsOneWord | maintenance_scenarios.py:313-327 | a label is recognised exactly as a known word after an optional deployment prefix |
| HistoryLaws.FieldsRebuild | maintenance_scenarios.py:335-337 | the columns hold no tab and rebuild the row |
| HistoryLaws.WrapperIsPresentation | maintenance_scenarios.py:338-342 | the wrapper of a named system installation is taken off |
| HistoryLaws.MoreRowsAreAccepted | maintenance_scenarios.py:367-371 | inserting acceptable rows, auxiliary or lifecycle, never turns acceptance into rejection |
| HistoryLaws.AuxiliaryRowsDoNotMatter | maintenance_scenarios.py:367-371 | an auxiliary row can be inserted or dropped without changing the verdict |
| HistoryLaws.ExactHistory | maintenance_scenarios.py:372-383 | with as many events as steps only the steps in their order are accepted, with fewer nothing is |
| ConsoleText.OneLine | console_output.py:28-34 | the result is one line of single-spaced words without control characters |
| ConsoleText.VisibleByCharacter | console_output.py:31-32 | each character is shown on its own: whitespace as a blank, other categories not at all, anything else as it is |
| ConsoleText.LongTextIsCut | console_output.py:34 | a text that fits is shown whole, of a longer one the beginning and three dots |
| Text.SpaceByCode | console_output.py:31-33 | whitespace, by its code points |
| ConsoleText.LengthIsBounded | console_output.py:34 | it is no longer than the limit if and only if the limit is at least three or nothing is cut |
| ConsoleText.SafeTextIsIdempotent | console_output.py:28-34 | a second application changes nothing, exactly under the stated condition, which holds for limits from three |
| TerminalCommands.OnlyTextRemains | console_output.py:14-18 | text interleaved with complete terminal commands becomes the text, whatever follows |
| TerminalCommands.UnendedStringTakesRest | console_output.py:14-17 | a control string without an end takes the rest with it |
| TerminalCommands.NoWordIsLost | console_output.py:28-33 | the cleaned line has exactly the words of the text between the commands |
| MarkdownCell.PassesAreIndependent | console_output.py:111-114 | HTML escaping and Markdown references together encode each character on its own |
| MarkdownCell.CellShowsSafeText | console_output.py:111-114 | decoding the character references of a cell gives back the safe text |
| MarkdownCell.CellIsInert | console_output.py:111-114 | no text puts a vertical bar, a line end or other active syntax into a cell |

## Left out

- Registry.Server.Response: the ETag, which is read outside the response, and manifests by an older digest after republishing.
- RegistryRuns.RunsAreSafe: one publisher; the `update` call is single writes of blobs, interleaved with readers that look up and fetch in two steps.
- TransactionTrace.Monitor: the assertions on sizes, metadata, remotes and rates, pre-authentication, and the cancel thread.
- Generator.Generator.Options: finding definitions, terms and marked options in the tree of a manual; their texts are the input.
- Generator.Generator.RegisterSignals: the patterns for classes, blocks and registrations; their matches with offsets are the input.
- XmlExpansion.Xml: XML parsing and tail text; documents are parsed trees, and an XPointer query is a given function from trees to positions.
- XmlExpansion.ReadEntities: entity references are placeholders from the start; the textual replacement is not modelled.
- CanonicalXml.XmlNormalized: the markup parser; its callbacks are the input, and the escaping follows the documented behaviour of GLib.
- SplitStability.JoinedPartsSplitAgain: delimiters other than quotes, backslashes and brackets; the source uses a comma, a plus sign and a line end.
- CoverageModel.CoverageModel.Summarize: rounding of percentages and the listing of capabilities, limitations and recorded execution.
- CoverageModel.CoverageModel.Verdict: the hashes of the suite are flags of the input.
- CoverageModel.SubjectProblem: the types of the JSON fields; absent texts are empty, and which of several problems is named is not stated.
- ProcessTree.Descendants: one snapshot of the process table; processes that come and go while it is read.
- ProcessTree.MeetsAncestor: process numbers are positive and parents form no cycle longer than one, as in any process table.
- ProcessTree.KillOrder: on a snapshot whose two views disagree only which processes are stopped and how many is stated; waiting, signals and the deadline of the cleanup loop.
- ConsoleText.SafeTextIsIdempotent: assumes of Unicode only that control characters are in one of the removed categories and the full stop is not.
- MesonLayout.ReadsExactlyWhatIsWritten: assumes that references are names and digits are no punctuation, as the patterns for both require.
- CArray.Array: letters outside ASCII as parts of words.
- MesonInputs.MesonInputs: which of several errors is raised first.
- MesonLaws.StatementOrderIsImmaterial: assumes of word characters that lower-case letters and underscores are among them and whitespace and punctuation are not.
- XmlTrails.CleanExactly: what a query selects is the given function, so that case speaks of the expanded target.
- The `library` and `cli` passes of the generator, its index of sources and the writing of JSON.
- Scenario bodies and clients that drive Flatpak, authentication, fixture preparation, GPG, OSTree and schema readers.
- Argument parsing, terminal colours and counters of the console output.
