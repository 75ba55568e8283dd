# Proofs about command lines, file specifications, file filters, clocks and mapping polynomials

This project models six components of a GNSS toolkit in Dafny and proves what they promise. Code that
changes state step by step is a class or a method with loops, proved against a definition that does not
mention the steps; what the definition means is then proved about all its inputs.

* **getopt** (`Getopt`, `GetoptScanner`, `GetoptProperties`, `GetoptDeclarations`, `GetoptMeaning`). The resumable
  scanner is a class over an `argv` array, with `optind`, `nextchar`, the two marks of skipped operands and the ordering
  as fields. `Scan` says what a whole scan should report and how it splits the elements; it knows no marks
  and moves nothing. Each call reports the next event of the scan that the current state stands for, whatever
  was permuted before. The scan is a stable partition, inverts a printer for everything that can be declared and
  written, and its permuted result scans the same in strict order (section 12.2, Utility Syntax Guidelines, of the XBD
  volume of IEEE Std 1003.1, with the GNU extensions).
* **The option parser on top of it** (`CommandOptions`, `CommandOptionUses`, `CommandOptionParser`): what is written
  with the names of options comes to these options.
* **File specifications** (`StringUtils`, `FileSpec`, `FileSpecSort`, `FileSpecOrder`, `Glob`,
  `FileSpecPattern`, `FileSpecFind`, `FileSpecSpan`): the parser, the printer, the extraction of fields, the order of
  names, the filtering of versions, the second tokenizer that makes pathname patterns, the search that descends level
  by level, and the times it covers.
* **Lists of file data** (`Sorting`, `FileFilter`).
* **Receiver clocks** (`ExactArithmetic`, `Stats`, `ObsClockModel`, `LinearClockModel`), in exact arithmetic:
  standard deviations are compared by their squares (`ExceedsIsComparison`).
* **Tropospheric mapping polynomials** (`Polynomials`, `TropModel`), two differently written sums.
* **The second command-line engine** (`CommandLine`, `CommandLineMeaning`).

## What turned out different from the documentation

Where a promise does not hold there is an input that shows it, and a theorem that says exactly when it holds.

* `sortList` with a version field returns names in the order of their names without the version. That is the
  order of the fields exactly if all other fields come before the version in the list of types and stand in the
  order of their types (`AscendingKeepsOrder`); it fails for every time field, as in `%1y%1v`
  (`FilteringForgetsTheOrder`). In descending order it holds only if there is no other field
  (`DescendingKeepsOrder`), and the least version is kept (`OneVersionIsKept`).
* The comparison of names starts with the directories. It goes by the files' own names exactly if there is no
  field to compare (`PathsAreCompared`, `PathsNotCompared`).
* In a relative path without a slash before its first field, the search does not look at this field. All types of the
  level are tested nevertheless exactly if a later field of it has the same type (`AllFieldsAreTested`). The time is
  tested exactly if a later field of the level is one of time, and then the whole name tells it (`LevelTestsTime`): the
  year is not tested in `%4Y` (`RelativeYearIsNotTested`), and is tested as a time, but not by a filter, in `%4Y%3j`
  (`RelativeYearWithDay`).
* The search promises the files from the start up to the end. Each level of the path has a half-open range in its own
  periods, so a file that lies between the bounds is found exactly if no level sees it in the period in which the search
  ends, unless the search starts in that period (`LastPeriodIsFound`, `TimesAreFound`). The whole span is searched
  exactly if each level sees both bounds in one period, or the end is the begin of a period of that level
  (`WholeSpanIsFound`); from March 2017 to March 2018 January 2018 is lost (`MonthIsLost`).
* For text without brackets and escapes, the names that the pattern finds are those that fit the elements exactly if
  every field has a width that is given and kept and the fixed text has no `?` or `*` (`AgreeExactlyIfExplicit`). A `?`
  in the text is any character for the pattern (`QuestionMarksDiffer`). A year field of width 1 to 3 is four characters
  for the parser, and as many digits as written for the pattern (`ShortYearsDiffer`).
* The translation into a pattern goes round for ever exactly if some field has no character after its digits
  (`TranslationEnds`, `LonePercentGoesRound`).
* Outlier stripping leaves something of every list exactly if the sigma multiplier is at least one
  (`SomeKeptFromOneOn`); for example, half a deviation can strip everything (`AllMayBeStripped`).
* A permuted command line is no normal form if an option at its end lacked its argument and operands were
  moved behind it (`PermutedIsNormal` is an if and only if), as in `x -a` (`StarvedTakesOperand`).
* In the second engine an off switch ends an ignored region exactly if it is not the argument of an ignored option
  (`OffEndsRegion`, `RegionNotEnded`). Every token that starts with `-d` or `--debug` is a debug option; the names
  that still reach their option are those of `LetterReachesOption` and `LongNameReachesOption` (`LetterDIsLost`).

## Model

| member | source | states |
|---|---|---|
| Getopt.LongMatchRule | core/lib/CommandLine/getopt.c:652-694 | the row a long name stands for: the first exact name if there is one; else the first row it abbreviates, exactly if all other such rows agree with that in argument, flag and value and abbreviations are not `long_only`; otherwise it is not found exactly if nothing is abbreviated |
| Getopt.OpeningRule | core/lib/CommandLine/getopt.c:388-452 | a leading `-` or `+` decides the ordering and is taken off; otherwise the environment decides |
| GetoptScanner.LookupLong | core/lib/CommandLine/getopt.c:652-681 | the loop over the table finds the row that the rule names |
| Getopt.DecodeProgress | core/lib/CommandLine/getopt.c:694-774 | a call inside an element consumes it or shortens its text, and takes a following element only if there is one |
| GetoptScanner.Rotate | core/lib/CommandLine/getopt.c:339-375 | swapping the shorter block into place ends, and exchanges two adjacent blocks, each in its order, with everything outside untouched |
| GetoptScanner.Scanner.Exchange | core/lib/CommandLine/getopt.c:303-381 | the rotation, and the two marks describe the moved operands |
| GetoptScanner.Scanner.Initialize | core/lib/CommandLine/getopt.c:388-452 | ordering and option string of the first call, from the leading mark and POSIXLY_CORRECT |
| GetoptScanner.Scanner.SkipOperands | core/lib/CommandLine/getopt.c:559-575 | permuting and skipping leave the outcome of the whole scan as it was, and the elements ahead untouched |
| GetoptScanner.Scanner.EndScan | core/lib/CommandLine/getopt.c:582-605 | at `--` the array becomes the options followed by the operands, and no event is left |
| GetoptScanner.Scanner.LongOptionCall | core/lib/CommandLine/getopt.c:640-775 | a call at a long name reports what decoding says and moves past what it used |
| GetoptScanner.Scanner.ShortOptionCall | core/lib/CommandLine/getopt.c:779-973 | a call inside a cluster of letters reports what decoding says and moves past what it used |
| GetoptScanner.Scanner.Next | core/lib/CommandLine/getopt.c:510-974 | every call reports the next event of the outcome that the state stands for and keeps the marks in order; or the events are used up, the array is options then operands, and `optind` is the first operand |
| GetoptScanner.Scanner.Run | core/lib/CommandLine/getopt.c:463-470 | calling until the end terminates, reports all events of the scan, and leaves the options followed by the operands with `optind` between them |
| GetoptScanner.Scanner.PlanInOrder | core/lib/CommandLine/getopt.c:607-616 | outside the permuting mode the outcome of any state is about the array as it is |
| GetoptProperties.ScanPartitions | core/lib/CommandLine/getopt.c:548-605 | options (with their arguments and any `--`) and operands are a stable partition of the elements |
| GetoptProperties.ScanInOrder | core/lib/CommandLine/getopt.c:607-616 | in the other two modes nothing is reordered |
| GetoptProperties.PermutedOperands | core/lib/CommandLine/getopt.c:569-593 | without `--` no operand left over has option syntax; with it, it is the last of the options |
| GetoptDeclarations.LettersAsDeclared | core/lib/CommandLine/getopt.c:779-973 | every letter of the option string is decoded as its own suffix says, nothing, `:` or `::`, wherever it stands, and every other letter is an error |
| GetoptMeaning.ScanInvertsPrint | core/lib/CommandLine/getopt.c:510-974 | for declared letters and long options, in every ordering: clusters of letters, known or not, letters with and without arguments, long options in full or abbreviated, values that are refused, unknown names, and words, with any end (`--`, operands, an option without its argument), are reported as those options with those arguments and those errors, and the words are passed over, stopped at, or reported |
| GetoptMeaning.LongOnlyElement | core/lib/CommandLine/getopt.c:618-775 | when one dash may introduce a long name, the element is that long option, or letters, or an error, according to the table and the option string |
| GetoptMeaning.PermutedIsNormal | core/lib/CommandLine/getopt.c:559-605 | scanning the permuted command line in strict order gives the same outcome if and only if not both an option at the end lacked its argument and there are operands |
| GetoptMeaning.StarvedTakesOperand | core/lib/CommandLine/getopt.c:559-605 | a command line whose permuted form gives the option an operand as its argument |
| CommandOptionParser.Parser.AddOption | core/lib/CommandLine/CommandOptionParser.cpp:78-110 | an option is added exactly if it shares no letter or long name and is not a second trailing option; otherwise the error names what is shared |
| CommandOptionParser.Parser.BuildTables | core/lib/CommandLine/CommandOptionParser.cpp:146-197 | the loop builds the option string, the table and the map of names that the declarations call for |
| CommandOptionParser.Parser.ParseOptions | core/lib/CommandLine/CommandOptionParser.cpp:114-321 | `argv` is untouched; each option has its occurrences among the events of a strict-order scan, the trailing option the operands in order with later numbers, and the errors are those of the events, a leftover without a trailing option, and the final checks; for fresh options counts equal the rising order numbers, which no two options share, and values are as many as occurrences, the trailing ones being the line from the first operand or behind `--`; the scanner can be used again; and whatever is written with the names of fresh options comes to these options (as `UsesAreFiled` says) |
| CommandOptionUses.UsesAreFiled | core/lib/CommandLine/CommandOptionParser.cpp:114-321 | for options that do not clash, and a command line written with letters, clusters and long names that reach their options, with values exactly for those that take one, with errors and any end: each option has collected its own values, in order, with the places of its uses as order numbers, the trailing option the operands behind them, and the errors are those written |
| CommandOptions.CheckFaultsExactly | core/lib/CommandLine/CommandOptionParser.cpp:323-340 | the final checks find a required option without a use and one with more uses than its limit, and nothing else |
| CommandOptions.DeclaredExactly | core/lib/CommandLine/CommandOptionParser.cpp:147-190 | required and optional options are noticed, and every trailing option after the first is an error |
| CommandOptions.OrdersAreOccurrences | core/lib/CommandLine/CommandOptionParser.cpp:218-289 | an event's number is among an option's order numbers if and only if it is an occurrence of it; the numbers increase strictly |
| CommandOptions.OrdersNotShared | core/lib/CommandLine/CommandOptionParser.cpp:261-287 | no two options share an order number |
| CommandOptions.ValuePerOccurrence | core/lib/CommandLine/CommandOptionParser.cpp:256-288 | an option that takes arguments has one value per occurrence, any other none |
| CommandOptions.TrailingNeverOccurs | core/lib/CommandLine/CommandOptionParser.cpp:153-188 | no event belongs to the trailing option |
| CommandOptions.LastDeclarationWins | core/lib/CommandLine/CommandOptionParser.cpp:163-176 | letters and long names share one map, in which the last declaration of a name counts |
| CommandOptions.NamesReachOptions | core/lib/CommandLine/CommandOptionParser.cpp:78-110 | among options that do not clash a name reaches its option if and only if no later option bears it, which can only be a letter meeting a long name of one letter |
| CommandOptions.LetterTakenOver | core/lib/CommandLine/CommandOptionParser.cpp:246-290 | a letter that a later option has for its long name is filed under the later one if both agree on arguments, and is one of two errors if not |
| CommandOptions.ReportsKnown | core/lib/CommandLine/CommandOptionParser.cpp:225-302 | every event is an error, a declared option, or the mark `+` |
| Sorting.StableSortSorts | core/lib/FileDirProc/FileFilter.hpp:91-141 | the stable sort gives a sorted permutation that keeps the order inside every class |
| Sorting.SortedByClasses | core/lib/FileDirProc/FileFilter.hpp:115-125 | a sorted list is determined by its classes, so any stable sort gives this one |
| FileFilter.FileFilter.AddAll | core/lib/FileDirProc/FileFilter.hpp:406-413 | inserting one by one before the first element puts a whole list in front, in its order, and leaves what was there |
| FileFilter.FileFilter.AddFiles | core/lib/FileDirProc/FileFilterFrame.hpp:278-298 | reading the files found puts their data behind those that are there, file after file, without those that cannot be opened |
| FileFilter.FileFilter.MergeSorted | core/lib/FileDirProc/FileFilter.hpp:151-153 | merging and sorting loses nothing, gives a sorted list, and puts equivalent data merged in before those that were there, each side in its order |
| FileFilter.FileFilter.Unique | core/lib/FileDirProc/FileFilter.hpp:155-192 | erasing neighbours leaves the thinned-out list and counts what was removed |
| FileFilter.DedupLeads | core/lib/FileDirProc/FileFilter.hpp:155-192 | for any list and any test, what is kept is the first element and then each first one that does not equal the one kept before it |
| FileFilter.FileFilter.Filter | core/lib/FileDirProc/FileFilter.hpp:194-218 | exactly the data that pass are removed, in order, and counted |
| FileFilter.FileFilter.FindAll | core/lib/FileDirProc/FileFilter.hpp:276-291 | exactly the data that pass, in order |
| FileFilter.WhereExactly | core/lib/FileDirProc/FileFilter.hpp:194-291 | the filtered list has the elements that pass, each as often as it was there |
| FileFilter.FilterComplement | core/lib/FileDirProc/FileFilter.hpp:194-291 | what a filter leaves and what the search finds split the data between them |
| FileFilter.DedupSorted | core/lib/FileDirProc/FileFilter.hpp:155-192 | thinning out a sorted list leaves the first of every class, strictly increasing |
| FileFilter.MergeSortUnique | core/lib/FileDirProc/FileFilter.hpp:151-192 | merge, sort and unique give a strictly increasing list with one representative of each class: the earliest merged in, or else the earliest that was there |
| FileFilter.FileFilter.HalfDifference | core/lib/FileDirProc/FileFilterFrameWithHeader.hpp:195-230 | the two iterators compute the cancelling difference |
| FileFilter.HalfDiffClasses | core/lib/FileDirProc/FileFilterFrameWithHeader.hpp:207-228 | for sorted lists each class keeps its surplus, max(m - n, 0) elements, and these are the last ones |
| FileFilter.HalfDiffIsSetDifference | core/lib/FileDirProc/FileFilter.hpp:249-274 | a list is what `std::set_difference` promises if and only if it is the hand-written difference |
| FileFilter.HalfDiffBalance | core/lib/FileDirProc/FileFilterFrameWithHeader.hpp:195-230 | both lists lose the same number of elements to each other |
| FileSpec.NamesAreTypes | core/lib/FileDirProc/FileSpec.cpp:106-181 | the name of every type but fixed text leads back to it |
| FileSpec.TypesAreNamed | core/lib/FileDirProc/FileSpec.cpp:106-181 | a letter is the name of its type, but for the second names Y and c |
| FileSpec.Spec.Init | core/lib/FileDirProc/FileSpec.cpp:420-534 | consuming the string finds the elements up to the first error, and adds their types to those already known |
| FileSpec.ParseTiles | core/lib/FileDirProc/FileSpec.cpp:420-510 | offsets are the sums of earlier widths, fixed text is whole and no two fixed elements are adjacent, all types are valid |
| FileSpec.FieldIsRead | core/lib/FileDirProc/FileSpec.cpp:462-507 | a field of a letter and digits, or none, is read with its width: 1 when there is none, but the text's own width for x and at least 4 for Y; an unknown letter or none is an error |
| FileSpec.TypesAreInOrder | core/lib/FileDirProc/FileSpec.hpp:93-132 | the letters stand for the types in this order, and those of time begin with the year |
| FileSpec.ParseAfterPrint | core/lib/FileDirProc/FileSpec.cpp:462-507 | parsing the concatenated texts of the elements gives the same types, offsets, widths and fixed text |
| FileSpec.Spec.CreateSearchString | core/lib/FileDirProc/FileSpec.cpp:184-214 | the search string of the elements, or an exception if a type is out of range |
| FileSpec.SearchStringHasText | core/lib/FileDirProc/FileSpec.cpp:184-214 | it is as long as all widths together and has the fixed text, or question marks, at each element's place |
| FileSpec.Spec.ExtractField | core/lib/FileDirProc/FileSpec.cpp:216-244 | the characters at the place of the first element of the type, and which of three errors otherwise |
| FileSpec.Spec.ToString | core/lib/FileDirProc/FileSpec.cpp:278-334 | the loop appends one rendered piece per element before the time is printed |
| FileSpec.ExtractAfterToString | core/lib/FileDirProc/FileSpec.cpp:216-334 | extracting a field from a name made with values for all fields gives the value, justified to the first such field's width |
| FileSpecSort.Compare | core/lib/FileDirProc/FileSpec.cpp:71-104 | the nested loops compare the fields lexicographically, type by type, and fail if and only if they come to a field that a name does not reach before the names differ |
| FileSpecSort.StringOrder | core/lib/FileDirProc/FileSpec.cpp:84-98 | a value is less than another if it is a part of its front or has the smaller character where they part |
| FileSpecSort.SettledExactly | core/lib/FileDirProc/FileSpec.cpp:78-98 | that is: the comparison succeeds if and only if before every field out of reach there is one in which the names differ |
| FileSpecSort.BaseNameIs | core/lib/FileDirProc/FileSpec.cpp:372-377 | what is left of a path is its last component |
| FileSpecSort.ComparatorIsStrictWeak | core/lib/FileDirProc/FileSpec.cpp:71-104 | in both directions the operator is a strict weak order, and equivalence is equality of all compared fields |
| FileSpecSort.SortList | core/lib/FileDirProc/FileSpec.cpp:336-400 | for names any two of which can be compared, the passes over the two lists and the map give the last name of each stripped name, in the order of these, or fail exactly if a file's name does not reach the version field |
| FileSpecSort.VersionsAreLast | core/lib/FileDirProc/FileSpec.cpp:388-398 | the map holds exactly the last name of every stripped name, with increasing keys |
| FileSpecSort.OneVersionIsKept | core/lib/FileDirProc/FileSpec.cpp:336-400 | with one version field and slash-free names, a name is kept if and only if it is an input and its version comes after all others of its file: the greatest in ascending, the least in descending order |
| FileSpecOrder.NamesDecided | core/lib/FileDirProc/FileSpec.cpp:71-104 | two names are in the order of the first field that differs, by type and then by position |
| FileSpecOrder.StrippedDecided | core/lib/FileDirProc/FileSpec.cpp:372-390 | stripped names, and so the listed ones, are in the order of the first field that differs by position |
| FileSpecOrder.AscendingKeepsOrder | core/lib/FileDirProc/FileSpec.cpp:336-400 | for a specification with one version field, every ascending result for full names is in the order of the fields if and only if all other fields have types before the version and stand in the order of their types |
| FileSpecOrder.DescendingKeepsOrder | core/lib/FileDirProc/FileSpec.cpp:336-400 | every descending result is in descending order if and only if there is no other field |
| FileSpecOrder.FilteringForgetsTheOrder | core/lib/FileDirProc/FileSpec.cpp:388-398 | year 1 version 2 and year 2 version 1 are listed against the order of the fields |
| FileSpecOrder.PathsAreCompared | core/lib/FileDirProc/FileSpec.cpp:81-98 | names with directories are compared as the files' own names if and only if there is nothing to compare |
| FileSpecOrder.PathsNotCompared | core/lib/FileDirProc/FileSpec.cpp:81-98 | two files in the order of their own names whose paths are not |
| Glob.MatchInParts | core/lib/FileDirProc/FileSpecFind.cpp:548-551 | a path matches a pattern up to a slash and from there on in one way only, where as many slashes have passed as the first part has |
| Glob.StarMatches | core/lib/FileDirProc/FileSpecFind.cpp:548-551 | a star takes any characters but slashes, and at the start of a component at least one that is no period |
| Glob.ReadShow | core/lib/FileDirProc/FileSpecFind.cpp:335-360 | a pattern without special characters, written as a string, is read back as itself |
| Glob.ReadShown | core/lib/FileDirProc/FileSpecFind.cpp:322-360 | any pattern without brackets and escapes is read back with wildcards in the places of its `?` and `*` |
| FileSpecPattern.TransToken | core/lib/FileDirProc/FileSpecFind.cpp:307-364 | for every specification whose fields are complete, known letters or not, the second tokenizer writes its pattern |
| FileSpecPattern.TranslationEnds | core/lib/FileDirProc/FileSpecFind.cpp:319-362 | the rounds of the loop, with positions that wrap around, come to an end if and only if every field has a character after its digits |
| FileSpecPattern.LonePercentGoesRound | core/lib/FileDirProc/FileSpecFind.cpp:319-362 | `abc%` never ends, and `%5q` does |
| FileSpecPattern.ReadableIsParsed | core/lib/FileDirProc/FileSpec.cpp:420-510 | what the pattern is defined for is what the parser accepts |
| FileSpecPattern.TokenizersAgree | core/lib/FileDirProc/FileSpecFind.cpp:307-364 | with widths for all fields and no special characters in the text, a name matches the written pattern if and only if it is as long as the parser's elements and has the fixed text, the digits and the other characters at their offsets |
| FileSpecPattern.AgreeExactlyIfExplicit | core/lib/FileDirProc/FileSpec.cpp:476-507 | for every specification that can be parsed and has no bracket and no escape, the written pattern, as it is read for the search, matches just what fits the elements if and only if every field has a width that is given and kept and the text has no `?` and no `*` |
| FileSpecPattern.QuestionMarksDiffer | core/lib/FileDirProc/FileSpecFind.cpp:322-329 | the specification `a?` is found as `ab`, which does not fit its element |
| FileSpecPattern.ShortYearsDiffer | core/lib/FileDirProc/FileSpec.cpp:494-496 | a year of width two is four characters for one tokenizer and two for the other |
| FileSpecFind.MatchFilter | core/lib/FileDirProc/FileSpecFind.cpp:569-637 | the walk over the multimap, with its skipping and remembered value, accepts a path if and only if every filtered field of the level has one of its allowed values, and fails only on a path that does not reach a field |
| FileSpecFind.FilterComparesText | core/lib/FileDirProc/FileSpecFind.cpp:569-637 | the filter accepts a path if and only if, for each type tested that it has values for, the characters at the first such field are one of them |
| FileSpecFind.LevelTestsItsFields | core/lib/FileDirProc/FileSpecFind.cpp:497-529 | a level tests exactly its own fields if a slash stands before the first; otherwise all but the first, which only happens at the start |
| FileSpecFind.AllFieldsAreTested | core/lib/FileDirProc/FileSpecFind.cpp:497-529 | a level tests all types that it has if and only if no first field is skipped or a later field of the level has its type |
| FileSpecFind.LevelTestsTime | core/lib/FileDirProc/FileSpecFind.cpp:527-563 | a level tests the time if and only if, a skipped field aside, it has a field of a type from the year on |
| FileSpecFind.RelativeYearIsNotTested | core/lib/FileDirProc/FileSpecFind.cpp:501-529 | nothing is tested for the specification `%4Y` |
| FileSpecFind.RelativeYearWithDay | core/lib/FileDirProc/FileSpecFind.cpp:501-529 | for `%4Y%3j` the time is tested, but no filter on the year |
| FileSpecFind.PassesEveryLevel | core/lib/FileDirProc/FileSpecFind.cpp:552-657 | a path passes from a level on if and only if it passes each later level for itself |
| FileSpecFind.PassesExactly | core/lib/FileDirProc/FileSpecFind.cpp:534-563 | a path passes if and only if it matches and passes the filter at every level, and no level with time sees it before the period of the start, nor from the period of the end on, unless both are one period, where it may be less than a tenth of a second later |
| FileSpecFind.LastPeriodIsPruned | core/lib/FileDirProc/FileSpecFind.cpp:534-563 | no path passes that some level with time sees in the period in which the search ends, if the search starts in another one |
| FileSpecFind.LastPeriodIsFound | core/lib/FileDirProc/FileSpecFind.cpp:534-563 | a path that passes all other tests, and that every level with time sees between the bounds, is found if and only if no level sees it in the last period, or that level sees both bounds there |
| FileSpecFind.HitsOfLevel | core/lib/FileDirProc/FileSpecFind.cpp:510-551 | a pattern with the matched part put in finds exactly the paths below that part that match the whole specification up to the level |
| FileSpecFind.FieldsInRange | core/lib/FileDirProc/FileSpecFind.cpp:599-606 | in a name that matches, no extraction for the filter fails |
| FileSpecFind.FindGlob | core/lib/FileDirProc/FileSpecFind.cpp:473-660 | the recursion ends and finds, each once, exactly the files below the matched part that pass the tests of all remaining levels; it can fail only with a filter and a field without a width |
| FileSpecFind.FindFiles | core/lib/FileDirProc/FileSpecFind.cpp:282-304 | the whole search is the flat test of every file at every level; no file is found that a level with time sees outside the periods of the search |
| FileSpecSpan.TimesAreFound | core/lib/FileDirProc/FileSpecFind.cpp:534-563 | when printing and scanning at each level gives the start of a period, a file of any time is found if and only if each level has this time not before the period of the start, and before that of the end or in the period of both |
| FileSpecSpan.InsideTheSpan | core/lib/FileDirProc/FileSpecFind.cpp:534-563 | between the bounds these are the times that no level leaves out |
| FileSpecSpan.WholeSpanIsFound | core/lib/FileDirProc/FileSpecFind.hpp:56 | every time from the start up to the end is searched if and only if each level with time sees both bounds in one period, or one of its periods begins at the end |
| FileSpecSpan.MonthsAreCalendar | core/lib/FileDirProc/FileSpecFind.cpp:534-545 | years and months of a path `/%4Y/%2m` are such periods |
| FileSpecSpan.MonthIsLost | core/lib/FileDirProc/FileSpecFind.cpp:534-563 | a month inside the span that is not found, and is found once the end is the begin of a year; months before and after the span are not found |
| Stats.Statistics.Add | core/lib/Math/Stats.hpp:156-172 | whatever the scale, the sum and the sum of squares grow by the sample and its square |
| Stats.Statistics.Subtract | core/lib/Math/Stats.hpp:174-186 | removing a sample that was added takes it and its square off the sums again |
| Stats.Statistics.AccessorsAgree | core/lib/Math/Stats.hpp:328-344 | average and variance are those of any list of samples with these sums |
| Stats.TwoSampleStatistics.SlopeIsLeastSquares | core/lib/Math/Stats.hpp:1059-1079 | the scales cancel: the slope is that of the least-squares line |
| Stats.LineIsBest | core/lib/Math/Stats.hpp:1059-1079 | when the sums determine a line, no other line has a smaller sum of squared distances |
| Stats.OneLineIsBest | core/lib/Math/Stats.hpp:1059-1079 | when the x are not all the same, it is the only best line |
| ObsClockModel.ExceedsIsComparison | core/lib/ClockModel/ObsClockModel.cpp:153-157 | comparing squares decides the comparison with the standard deviation, for every multiplier |
| ObsClockModel.StrippingBound | core/lib/ClockModel/ObsClockModel.cpp:144-159 | if m of n samples lie more than k deviations from the mean and m > 0, then m k^2 < n - 1 |
| ObsClockModel.SomeSurvive | core/lib/ClockModel/ObsClockModel.cpp:144-159 | for k >= 1 at least two samples are kept |
| ObsClockModel.SomeKeptFromOneOn | core/lib/ClockModel/ObsClockModel.cpp:144-159 | stripping leaves something of every list of more than two samples if and only if k >= 1, for every multiplier k |
| ObsClockModel.AllMayBeStripped | core/lib/ClockModel/ObsClockModel.cpp:144-159 | an example with k = 1/2 |
| ObsClockModel.ClockModel.Mark | core/lib/ClockModel/ObsClockModel.cpp:113-138 | the status of one observation under the masks, and the exception for an unknown elevation |
| ObsClockModel.ClockModel.ApplyMasks | core/lib/ClockModel/ObsClockModel.cpp:106-142 | after the first pass an observation is used if and only if it is not low, not odd unless odd data are wanted, and its satellite is always used, or used when healthy and bit 5 of its health is not known to be set; each other status has its own condition; the statistics are those of the used |
| ObsClockModel.ClockModel.StripOutliers | core/lib/ClockModel/ObsClockModel.cpp:144-159 | the second pass marks exactly the used observations that are too far from the mean |
| ObsClockModel.ClockModel.SimpleOrdClock | core/lib/ClockModel/ObsClockModel.cpp:104-170 | the same for the final statuses, where with more than two that pass the masks those too far from their mean are outliers; the statistics are those of the observations finally used |
| ObsClockModel.MasksMean | core/lib/ClockModel/ObsClockModel.cpp:113-138 | which status the masks call for, over the observation and the masks |
| ObsClockModel.ModesDiffer | core/lib/ClockModel/ObsClockModel.cpp:113-132 | a satellite in each mode, healthy and not |
| ObsClockModel.OutliersAreFew | core/lib/ClockModel/ObsClockModel.cpp:104-170 | for the final statuses of any epoch: with u used and m > 0 outliers, m k^2 < u + m - 1, and u >= 2 if k >= 1 |
| LinearClockModel.LinearClock.GetOffset | core/lib/ClockModel/LinearClockModel.hpp:68-78 | inside the covered times this is the value of the best line through the stored observations if they are not all of one time, and outside it is 0 |
| LinearClockModel.LinearClock.Evict | core/lib/ClockModel/LinearClockModel.cpp:126-141 | the loop removes exactly the observations older than the window, from store and sums |
| LinearClockModel.LinearClock.AddEpoch | core/lib/ClockModel/LinearClockModel.cpp:67-142 | an epoch changes the state as `Step` does with all sums taken afresh, and the running sums stay those of the store; what it adds and drops is as in the next two rows; an exception changes nothing |
| LinearClockModel.LineDecides | core/lib/ClockModel/LinearClockModel.cpp:86-141 | with more than 24 observations, an epoch adds its used observations and clears the count if its mean is within 20 of their best line, and otherwise adds none and is counted, the sixth in a row clearing the store |
| LinearClockModel.FewAreJoined | core/lib/ClockModel/LinearClockModel.cpp:74-141 | with 24 or fewer it always adds them |
| LinearClockModel.OnLineIsBest | core/lib/ClockModel/LinearClockModel.cpp:91-92 | a line that all observations lie on is the best one |
| LinearClockModel.OneTimeDecides | core/lib/ClockModel/LinearClockModel.cpp:86-141 | if they are all of one time, their mean takes the place of the line |
| LinearClockModel.StepKeepsSound | core/lib/ClockModel/LinearClockModel.cpp:79-141 | the store stays ordered and inside the covered times, nothing kept is more than 1800 s older than the epoch, at most five rejections are counted, and the base changes only while the store is empty |
| LinearClockModel.ResetOnSixthRejection | core/lib/ClockModel/LinearClockModel.cpp:97-115 | in every run an epoch resets the clock if and only if it is the sixth rejected in a row, and there are never seven |
| LinearClockModel.StoreHoldsWindow | core/lib/ClockModel/LinearClockModel.cpp:67-142 | after any run from an empty store, such as the one that a caller's reset leaves, the store holds exactly the samples of the epochs that were not rejected, not followed by a reset, and not older than the window for any later epoch |
| Polynomials.IntegralIsIntegral | core/lib/GNSSCore/GGTropModel.cpp:116-121 | `Integral` vanishes at 0 and has the polynomial as its slope |
| TropModel.CoefficientsAreFourthPower | core/lib/GNSSCore/GGTropModel.cpp:105-114 | the nine coefficients are those of (1 + a x + b x^2)^4 |
| TropModel.MappingSum | core/lib/GNSSCore/GGTropModel.cpp:105-121 | the descending loop computes the integral of that power from 0 to r |
| TropModel.HeightMappingSum | core/lib/GNSSCore/GGHeightTropModel.cpp:186-203 | the table of powers and the ascending loop give the sum of the model's terms |
| TropModel.HeightModelFallsShort | core/lib/GNSSCore/GGHeightTropModel.cpp:186-203 | the integral exceeds that sum by exactly the shortfall of its coefficients |
| TropModel.ShortfallValue | core/lib/GNSSCore/GGHeightTropModel.cpp:194-201 | the shortfall is (3e-7/7) b^2 (6 a^2 + 4 b) r^7, and also a b^3 r^8/2 + b^4 r^9/9 when b^2 <= 1e-35 |
| CommandLine.CommandLine.PreProcessArg | core/lib/CommandLine/CommandLine.cpp:483-626 | what one token does to the flags, the levels and the arguments |
| CommandLine.CommandLine.PreProcessArgs | core/lib/CommandLine/CommandLine.cpp:478-626 | from any state that earlier calls have left, the tokens are folded into the flags, levels and arguments; from the state of a new program this leaves exactly the tokens that are not empty, not ignored, not the argument of an ignored option and in no ignored region, rewritten in order, and help, verbosity and debug level are those of these tokens |
| CommandLine.CommandLinesAreOne | core/lib/CommandLine/CommandLine.cpp:487-496 | the flags outlive a command line: a second one is dealt with like the rest of one long command line that starts with the first |
| CommandLine.CommandLine.GiveTokens | core/lib/CommandLine/CommandLine.cpp:685-724 | the loop gives every token to an option or to the unrecognized ones, as its role says, in order |
| CommandLine.CommandLine.CheckOptions | core/lib/CommandLine/CommandLine.cpp:726-755 | special options get what the first pass found; required ones without values and repeated ones are reported |
| CommandLine.CommandLine.Parse | core/lib/CommandLine/CommandLine.cpp:679-757 | both together, from the tokens and the state before |
| CommandLineMeaning.OffEndsRegion | core/lib/CommandLine/CommandLine.cpp:496-529 | after an off switch the region goes on if and only if the switch was the argument of an ignored option |
| CommandLineMeaning.RegionNotEnded | core/lib/CommandLine/CommandLine.cpp:496-529 | a command line on which it goes on to the end |
| CommandLineMeaning.CallReachesOption | core/lib/CommandLine/CommandLine.cpp:483-724 | through both passes a name gives an option its value if and only if it is not ignored, reserved or that of a file, and what is put in its place names this option first |
| CommandLineMeaning.LetterReachesOption | core/lib/CommandLine/CommandLine.cpp:589-615 | for a letter this means that it is none of h, d, v and f |
| CommandLineMeaning.LongNameReachesOption | core/lib/CommandLine/CommandLine.cpp:589-615 | for a long name, that it is not help, verbose or file and does not start with debug |
| CommandLineMeaning.LetterDIsLost | core/lib/CommandLine/CommandLine.cpp:593-608 | an option that `-d` does not reach and `--data` does |
| CommandLineMeaning.RolesAreUnique | core/lib/CommandLine/CommandLine.cpp:687-724 | each token has exactly one role: roles satisfy a rule about neighbouring tokens if and only if they are the ones given out |
| CommandLineMeaning.TokensAreUnderstood | core/lib/CommandLine/CommandLine.cpp:685-724 | flags and values written with the letters or long names of options, names that lack their value, and loose words are parsed as what they were meant for |
| CommandLineMeaning.PiecesHaveEffect | core/lib/CommandLine/CommandLine.cpp:478-626 | the first pass keeps what is said, replaces deprecated names, notes help, verbosity and debug levels, and drops ignored options with and without argument and ignored regions, whatever the order of these pieces |
| CommandLineMeaning.FaultsExactly | core/lib/CommandLine/CommandLine.cpp:738-755 | missing are the required options without a value, repeated the other ones with more than one that may not have them |
| CommandLineMeaning.SpecialOptionsAreFilled | core/lib/CommandLine/CommandLine.cpp:726-737 | the options help, verbose and debug get what the first pass has found |
| CommandLineMeaning.CommandLinesAreUnderstood | core/lib/CommandLine/CommandLine.cpp:478-724 | so they are through both passes, in a whole command line of any pieces |

## Left out

- Scanner.Next: the `-W foo` branch (the option string has no `W;`), error messages, and the writes to `optarg`, `optopt`, the flag and the row index, which are parts of the reported event instead.
- Scanner.Run: as for a single call, without `W;` in the option string.
- Scanner.ShortOptionCall: as for a single call, without `W;` in the option string.
- Scanner: `nextchar` is a string and not a pointer into `argv`; -1 is the absence of an event; changing the arguments between calls is not modelled.
- ScanInvertsPrint: command lines where a single dash may introduce a long name (`long_only`), for which there is `LongOnlyElement` about one element; letters that occur twice in an option string.
- Parser.ParseOptions: the text of errors for long options (it depends on the scanner's position), help options, and options whose check of arguments is overridden.
- FileFilter.HalfDifference: headers and precision, which the original hands through to the comparison, are part of the comparison; touch and file access are left out.
- UsesAreFiled: options with the letters `:` and `+`, and uses of the letters `-` and `?`, which mean something else to getopt; a name is written in full.
- PiecesHaveEffect: debug levels are digits.
- Spec.Init: widths with a minus sign are excluded, and integers are unbounded.
- Spec.ToString: printing the time is a parameter; the round trip is about names that it does not change.
- SortList: `std::stable_sort` is the function `StableSort`, so lists with two names whose comparison fails are excluded: whether it compares them is up to the library; names with directories are covered only as far as the result of the passes and the order of comparison.
- FindGlob: `glob` is a test of every path of a fixed set that contains the directories of its members; excluded are specifications with the characters `?`, `*`, `[` or `\`, file names with these or with `%`, a leading `~`, which `glob` expands, and specifications that the parser rejects; time scanning and printing are parameters without exceptions. The variant of the search that fills in text values first is not modelled.
- FindFiles: as for the recursion it starts.
- TimesAreFound: that printing and scanning a time gives the start of its period is assumed of the time library, which is a parameter.
- WholeSpanIsFound: the same.
- AgreeExactlyIfExplicit: specifications with `[` or `\` are excluded, since bracket expressions and escapes are not modelled, and so is the expansion of a leading `~`.
- TokenizersAgree: the same, and specifications with `?` or `*`, for which `AgreeExactlyIfExplicit` shows that it fails.
- TransToken: specifications for which the original does not end are excluded; there it may also look beyond the end of the string.
- Statistics.Add: minimum and maximum, combination of two statistics, and rounding.
- ClockModel: square roots; health words are integers, and each observation is stored under its own satellite.
- LinearClock: time systems and output; times are real numbers of seconds.
- MappingSum: trigonometry, the square root, zenith delays, the validity flags and the final division by a constant.
- HeightMappingSum: the same, and the division by the height norm.
- CommandLine.PreProcessArg: files of options, logging and the expansion of lists.
- CommandLine.PreProcessArgs: the same.
- CallReachesOption: a call alone on the command line, with a plain value; for whole command lines there is `CommandLinesAreUnderstood`.
- LetterReachesOption: the same.
- LongNameReachesOption: the same.
- CommandLine.Parse: the conversion of values, and the texts of errors (the offending names stand for them).
