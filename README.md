# Aws::Util inflection and INI parsing

A model of two helpers of the `Aws::Util` module of the AWS SDK for Ruby,
as their test suite `spec/aws/util_spec.rb` exercises them.

- `underscore` turns a mixed-case API identifier (`AWSAccountID`) into a
  lower-case, underscore-separated name (`aws_account_id`). A fixed table
  of 34 irregular identifiers is consulted first. Every other identifier
  is cut into words by three boundary rules, and the words are lower-cased
  and joined with `_` (module `Inflection`, file `inflection.dfy`). The
  test's expectations are proved in module `InflectionExamples`
  (`inflection_examples.dfy`).
- `ini_parse` turns the text of a credentials or profile file into a map
  from section name to a map from key to value. It reads the text line by
  line with a current section and a document it updates. Each line is
  trimmed; whole-line and trailing comments are dropped; `[name]` opens a
  section; `key = value` stores a pair under the current section. Every
  other line is ignored (module `Ini`, file `ini.dfy`). The loop is the
  method `Ini.IniParse`, proved equal to the fold `Ini.Parse`. The test's
  sample text is worked through in module `IniExamples`
  (`ini_examples.dfy`).

The central results:
- `Inflection.ByRulesOfWords`: the rules turn any well-formed run of
  capitalised words, acronyms (digits included), numbers and a leading
  lower-case word into those words lower-cased and joined with `_`.
- `Ini.SectionsAreWritten` and `Ini.LastWriteWins`: the parsed document
  equals a reference reading. That reading is the log of the pairs, each
  written to the section of the last header before it, with the last
  write to a key winning. A section header with no pair after it
  therefore leaves no section.

The implementation file of `Aws::Util` is not part of this model. The
behaviour modelled is the one its tests require.

## Model

| member | source | states |
|---|---|---|
| Inflection.Lower | spec/aws/util_spec.rb:20-22 | a capital becomes a lower-case letter, every other character is kept, and no capital is left |
| Inflection.LowerByAlphabet | spec/aws/util_spec.rb:20-22 | a capital is lowered to the small letter at its own place in the alphabet (`Capitals[k]` to `Smalls[k]`) |
| Inflection.LowerAll | spec/aws/util_spec.rb:20-22 | the result has no capital and leaves text without capitals unchanged |
| Inflection.LowerAllConcat | spec/aws/util_spec.rb:20-26 | lower-casing two pieces written together is lower-casing each piece |
| Inflection.SeparateNoUpper | spec/aws/util_spec.rb:20-22 | scanning an identifier and emitting its characters lower-cased, with separators at the cuts, never leaves a capital |
| Inflection.SeparateIsSnake | spec/aws/util_spec.rb:24-59 | on letters and digits the scan yields lower-case words separated by single underscores, with none at either end |
| Inflection.SeparateOnlyInserts | spec/aws/util_spec.rb:24-59 | on letters and digits the scan only inserts separators: removing them gives back the identifier lower-cased |
| Inflection.ByRules | spec/aws/util_spec.rb:24-59 | the rules alone produce no capital, and on letters and digits produce canonical underscore form that, separators removed, is the identifier lower-cased |
| Inflection.Underscore | spec/aws/util_spec.rb:16-104 | an identifier in the irregular table yields its tabulated value; any other yields the rules' result, with the same guarantees |
| Inflection.NoBoundaryInWord | spec/aws/util_spec.rb:28-59 | no rule cuts inside a capitalised word, an acronym (digits included), a number or a lower-case word that is not followed by a lower-case letter |
| Inflection.CutBetweenWords | spec/aws/util_spec.rb:24-59 | some rule cuts between two neighbouring words when the second may follow the first (a capitalised word, an acronym after a non-acronym, a number after a capitalised or lower-case word) |
| Inflection.NoCutInsideWord | spec/aws/util_spec.rb:28-59 | no cut anywhere inside such a word |
| Inflection.SeparateWord | spec/aws/util_spec.rb:24-59 | the scan over a stretch cut only at its start emits one separator and the stretch lower-cased |
| Inflection.SeparateWords | spec/aws/util_spec.rb:24-59 | the scan over a run of words cut exactly at the word starts is the words lower-cased and joined with `_` |
| Inflection.WordsAreMarked | spec/aws/util_spec.rb:24-59 | in a well-formed run of words the rules cut exactly at the starts of the words after the first |
| Inflection.ByRulesOfWords | spec/aws/util_spec.rb:24-59 | the rules turn any well-formed run of capitalised words, acronyms, numbers and a leading lower-case word into those words lower-cased and joined with `_` |
| InflectionExamples.FooByRules | spec/aws/util_spec.rb:21 | `Foo` is one capitalised word: `foo` |
| InflectionExamples.FooBarYuckByRules | spec/aws/util_spec.rb:25 | `FooBarYuck` is three capitalised words: `foo_bar_yuck` |
| InflectionExamples.AWSByRules | spec/aws/util_spec.rb:29 | `AWS` is one acronym: `aws` |
| InflectionExamples.AWSAccountByRules | spec/aws/util_spec.rb:33 | `AWSAccount` is an acronym then a word: `aws_account` |
| InflectionExamples.SimpleDBByRules | spec/aws/util_spec.rb:37 | `SimpleDB` is a word then an acronym: `simple_db` |
| InflectionExamples.MySUPERWordByRules | spec/aws/util_spec.rb:41 | `MySUPERWord` keeps the inner acronym whole: `my_super_word` |
| InflectionExamples.AWSAccountIDByRules | spec/aws/util_spec.rb:42 | `AWSAccountID`: `aws_account_id` |
| InflectionExamples.MD5OfBodyByRules | spec/aws/util_spec.rb:46 | a trailing digit stays with its acronym: `md5_of_body` |
| InflectionExamples.S3BucketByRules | spec/aws/util_spec.rb:47 | `S3Bucket`: `s3_bucket` |
| InflectionExamples.EC2InstanceByRules | spec/aws/util_spec.rb:48 | `EC2Instance`: `ec2_instance` |
| InflectionExamples.TwentyFourMINByRules | spec/aws/util_spec.rb:53 | a leading number is a word of its own: `24MIN` gives `24_min` |
| InflectionExamples.MD5ByRules | spec/aws/util_spec.rb:46 | the acronym `MD5` alone: `md5` |
| InflectionExamples.MySUPERWordInflected | spec/aws/util_spec.rb:41 | `underscore('MySUPERWord')` is `my_super_word` |
| InflectionExamples.AWSAccountIDInflected | spec/aws/util_spec.rb:42 | `underscore('AWSAccountID')` is `aws_account_id` |
| InflectionExamples.MD5OfBodyInflected | spec/aws/util_spec.rb:46 | `underscore('MD5OfBody')` is `md5_of_body` |
| InflectionExamples.S3BucketInflected | spec/aws/util_spec.rb:47 | `underscore('S3Bucket')` is `s3_bucket` |
| InflectionExamples.EC2InstanceInflected | spec/aws/util_spec.rb:48 | `underscore('EC2Instance')` is `ec2_instance` |
| InflectionExamples.TwentyFourMINInflected | spec/aws/util_spec.rb:53 | `underscore('24MIN')` is `24_min` |
| InflectionExamples.MD5Inflected | spec/aws/util_spec.rb:46 | `underscore('MD5')` is `md5` |
| InflectionExamples.DowncasesTitleizedWords | spec/aws/util_spec.rb:20-22 | `underscore('Foo')` is `foo` |
| InflectionExamples.BreaksCompoundTitleizedWords | spec/aws/util_spec.rb:24-26 | `underscore('FooBarYuck')` is `foo_bar_yuck` |
| InflectionExamples.TreatsAcronymsAsOneWord | spec/aws/util_spec.rb:28-30 | `underscore('AWS')` is `aws` |
| InflectionExamples.PreservesLeadingAcronyms | spec/aws/util_spec.rb:32-34 | `underscore('AWSAccount')` is `aws_account` |
| InflectionExamples.PreservesTrailingAcronyms | spec/aws/util_spec.rb:36-38 | `underscore('SimpleDB')` is `simple_db` |
| InflectionExamples.PreservesNestedAcronyms | spec/aws/util_spec.rb:40-43 | both nested-acronym expectations hold |
| InflectionExamples.TrailingNumbersBelongToAcronyms | spec/aws/util_spec.rb:45-49 | all three trailing-number expectations hold |
| InflectionExamples.LeadingNumbersAreSeparateWords | spec/aws/util_spec.rb:51-54 | `SentLast24Hours` and `24MIN` inflect as expected |
| InflectionExamples.AcceptsLowerCaseStarts | spec/aws/util_spec.rb:56-59 | `s3Key` and `s3Bucket` inflect as expected |
| InflectionExamples.IrregularInflections1 | spec/aws/util_spec.rb:65-66 | the two irregular identifiers on these lines inflect to their tabulated values |
| InflectionExamples.IrregularInflections2 | spec/aws/util_spec.rb:67-68 | the two irregular identifiers on these lines inflect to their tabulated values |
| InflectionExamples.IrregularInflections3 | spec/aws/util_spec.rb:69-70 | the two irregular identifiers on these lines inflect to their tabulated values |
| InflectionExamples.IrregularInflections4 | spec/aws/util_spec.rb:71-72 | the two irregular identifiers on these lines inflect to their tabulated values |
| InflectionExamples.IrregularInflections5 | spec/aws/util_spec.rb:73-74 | the two irregular identifiers on these lines inflect to their tabulated values |
| InflectionExamples.IrregularInflections6 | spec/aws/util_spec.rb:75-76 | the two irregular identifiers on these lines inflect to their tabulated values |
| InflectionExamples.IrregularInflections7 | spec/aws/util_spec.rb:77-78 | the two irregular identifiers on these lines inflect to their tabulated values |
| InflectionExamples.IrregularInflections8 | spec/aws/util_spec.rb:79-80 | the two irregular identifiers on these lines inflect to their tabulated values |
| InflectionExamples.IrregularInflections9 | spec/aws/util_spec.rb:81-82 | the two irregular identifiers on these lines inflect to their tabulated values |
| InflectionExamples.IrregularInflections10 | spec/aws/util_spec.rb:83-84 | the two irregular identifiers on these lines inflect to their tabulated values |
| InflectionExamples.IrregularInflections11 | spec/aws/util_spec.rb:85-86 | the two irregular identifiers on these lines inflect to their tabulated values |
| InflectionExamples.IrregularInflections12 | spec/aws/util_spec.rb:87-88 | the two irregular identifiers on these lines inflect to their tabulated values |
| InflectionExamples.IrregularInflections13 | spec/aws/util_spec.rb:89-90 | the two irregular identifiers on these lines inflect to their tabulated values |
| InflectionExamples.IrregularInflections14 | spec/aws/util_spec.rb:91-92 | the two irregular identifiers on these lines inflect to their tabulated values |
| InflectionExamples.IrregularInflections15 | spec/aws/util_spec.rb:93-94 | the two irregular identifiers on these lines inflect to their tabulated values |
| InflectionExamples.IrregularInflections16 | spec/aws/util_spec.rb:95-96 | the two irregular identifiers on these lines inflect to their tabulated values |
| InflectionExamples.IrregularInflections17 | spec/aws/util_spec.rb:97-98 | the two irregular identifiers on these lines inflect to their tabulated values |
| InflectionExamples.ETagByRules | spec/aws/util_spec.rb:65 | the rules alone would give `e_tag` for `ETag` |
| InflectionExamples.ElastiCacheByRules | spec/aws/util_spec.rb:72 | the rules alone would give `elasti_cache` |
| InflectionExamples.NotificationARNsByRules | spec/aws/util_spec.rb:73 | the rules alone would give `notification_ar_ns` |
| InflectionExamples.CachediSCSIVolumeByRules | spec/aws/util_spec.rb:79 | the rules alone would give `cachedi_scsi_volume` |
| InflectionExamples.S3BucketLowerByRules | spec/aws/util_spec.rb:66 | the rules alone would give `s_3_bucket` for `s3Bucket`: rule C cuts the lower-case start off its digit |
| InflectionExamples.S3KeyByRules | spec/aws/util_spec.rb:67 | the rules alone would give `s_3_key` for `s3Key` |
| InflectionExamples.Ec2KeyNameByRules | spec/aws/util_spec.rb:68 | the rules alone would give `ec_2_key_name` for `Ec2KeyName` |
| InflectionExamples.TableOverridesRules | spec/aws/util_spec.rb:64-103 | on `s3Bucket`, `s3Key`, `Ec2KeyName`, `ETag`, `ElastiCache`, `NotificationARNs` and `CachediSCSIVolume` the table's value differs from the rules' result, so the table is needed |
| InflectionExamples.InflectedAcronymCutAgain | spec/aws/util_spec.rb:51-54 | the rules cut `md5` again before its digit: `md_5` |
| InflectionExamples.NotIdempotent | spec/aws/util_spec.rb:45-54 | `underscore` applied to its own output `md5` (from `MD5`) gives `md_5`: the inflection is not idempotent |
| Ini.Trim | spec/aws/util_spec.rb:111-116 | the result has no whitespace at either end, is no longer than the line, and is empty exactly when the line is all whitespace |
| Ini.TrimPadded | spec/aws/util_spec.rb:112-116 | trimming a trimmed text padded with whitespace gives back that text |
| Ini.TrimSplits | spec/aws/util_spec.rb:112-116 | every line is its trimmed form padded with whitespace on both sides |
| Ini.FindComment | spec/aws/util_spec.rb:112-114 | finds the first `;` that follows whitespace, and no earlier one exists |
| Ini.StripComment | spec/aws/util_spec.rb:112-115 | the result is a prefix of the line holding no comment start, is the line itself when it has none, and stays trimmed |
| Ini.Lines | spec/aws/util_spec.rb:111-116 | the text cut at newlines: the lines hold no newline, and joined with newlines they give back the text |
| Ini.LinesOfJoin | spec/aws/util_spec.rb:111-116 | cutting lines joined by newlines gives back the lines |
| Ini.LinesAppend | spec/aws/util_spec.rb:111-116 | one more line of text adds exactly one line at the end |
| Ini.FindChar | spec/aws/util_spec.rb:115 | finds the first occurrence of a character, and no earlier one exists |
| Ini.EntryOf | spec/aws/util_spec.rb:112-116 | a `[name]` line spanning the line is a header with a non-empty name; otherwise a line with `=` is a pair split at its first `=`, key and value trimmed; every other line is ignored |
| Ini.Classify | spec/aws/util_spec.rb:111-116 | a blank line or one whose first visible character is `;` is ignored; keys and values are trimmed and keys hold no `=`; header names are non-empty |
| Ini.ClassifyBody | spec/aws/util_spec.rb:112-116 | a trimmed, comment-free line keeps its meaning whatever whitespace surrounds it |
| Ini.SplitAtEquals | spec/aws/util_spec.rb:114-115 | a line that is no header is split at its first `=` into trimmed key and value |
| Ini.PairLine | spec/aws/util_spec.rb:114-115 | `key = value` with any whitespace around the line, the key and the `=` stores `value` under `key` |
| Ini.HeaderLine | spec/aws/util_spec.rb:112-116 | `[name]` with whitespace around it makes `name` the section |
| Ini.CommentLine | spec/aws/util_spec.rb:111 | a line whose first visible character is `;` is ignored |
| Ini.TrailingComment | spec/aws/util_spec.rb:112-114 | a `;` after whitespace starts a comment that changes nothing about the line |
| Ini.PlainLine | spec/aws/util_spec.rb:113 | a line with no `=` that is no header is ignored |
| Ini.Store | spec/aws/util_spec.rb:118-120 | storing a pair adds the section if absent and gives the key its value |
| Ini.StoreLookup | spec/aws/util_spec.rb:118-120 | a store changes the one lookup it targets and no other |
| Ini.Step | spec/aws/util_spec.rb:112-116 | a header changes the current section and adds nothing; a pair changes the document only under a current section; a store never removes a section |
| Ini.Run | spec/aws/util_spec.rb:116-121 | after any lines the current section is the last header read, and no section of the document is empty |
| Ini.RunSnoc | spec/aws/util_spec.rb:111-116 | reading one more line is one more step |
| Ini.Parse | spec/aws/util_spec.rb:118-121 | no section of the parsed document is empty |
| Ini.ApplyEntry | spec/aws/util_spec.rb:112-116 | the in-place update for one line is the step of the fold |
| Ini.IniParse | spec/aws/util_spec.rb:108-123 | the loop over the lines returns exactly the parsed document, in which no section is empty |
| Ini.SectionsAreWritten | spec/aws/util_spec.rb:116-121 | a section is in the document exactly when some pair was written to it |
| Ini.LastWriteWins | spec/aws/util_spec.rb:114-120 | every lookup yields the last value written to that key of that section |
| Ini.NoHeaderNoSections | spec/aws/util_spec.rb:111-116 | lines without a header leave no current section and an empty document |
| Ini.NoPairNoSections | spec/aws/util_spec.rb:116-121 | lines without a pair leave the document empty |
| Ini.LeadingLinesIgnored | spec/aws/util_spec.rb:111-113 | lines before the first header, pairs included, do not change the result |
| Ini.CommentsOnly | spec/aws/util_spec.rb:111 | text made only of blank and comment lines parses to an empty document |
| IniExamples.CommentLineIgnored | spec/aws/util_spec.rb:111 | the test's first line is a comment |
| IniExamples.CommentedHeader | spec/aws/util_spec.rb:112 | `[section1] ; comment at end of line` opens `section1` |
| IniExamples.InvalidLineIgnored | spec/aws/util_spec.rb:113 | `invalidline` is ignored |
| IniExamples.CommentedPair | spec/aws/util_spec.rb:114 | `key1=value1 ;anothercomment` is the pair `key1`, `value1` |
| IniExamples.SemicolonInValue | spec/aws/util_spec.rb:115 | `key2 = value2;value3` is the pair `key2`, `value2;value3` |
| IniExamples.EmptySectionHeader | spec/aws/util_spec.rb:116 | `[emptysection]` is a header |
| IniExamples.SampleDocument | spec/aws/util_spec.rb:111-121 | the test's text parses to `value1` under `section1`/`key1` and `value2;value3` under `section1`/`key2`, and `emptysection` is absent |
| IniExamples.PairWithoutSection | spec/aws/util_spec.rb:108-123 | `k=v` with no header before it parses to an empty document |

## Left out

- `Inflection.Underscore`: the irregular table's values are taken as given. Nothing is proved about their form beyond the test's expectations.
- `Inflection.ByRules`: characters other than ASCII letters and digits pass through lower-cased and are not treated as separators. The canonical-form guarantees are stated only for identifiers made of letters and digits.
- `Inflection.AcronymBoundary`: rule A is read as cutting before a capital that follows an upper-case/digit run and precedes a lower-case letter. A run whose last character is a digit (`AB5c`) is not cut before that digit by rule A. No identifier of the test suite tells the two readings apart.
- `Inflection.Cuts`: the three rules are evaluated on the characters of the identifier and united, not applied one after another on a marked-up string. Inserting a separator never makes two letters or digits adjacent, so both orders cut at the same places.
- `Inflection.Underscore`: idempotence on its own output is not a property of the rules. Rule C cuts again inside an inflected acronym, and `InflectionExamples.NotIdempotent` shows `MD5` → `md5` → `md_5`.
- `Ini.Lines`: the text is cut at `\n` only. A trailing newline yields one last empty line, which is ignored. A `\r` before a newline is removed by trimming.
- `Ini.IsSpace`: whitespace is space, tab, line feed, carriage return, vertical tab and form feed. NUL, which Ruby's `strip` may also remove, is not treated as whitespace.
- `Ini.PairLine`: when the key or the value is empty, the whitespace between it and the `=` is required to be empty too, because trimming cannot tell that whitespace apart from the padding of the line.
- Reading the credentials or profile file from disk is left out. Only the text-to-map interpretation is modelled.
- The code-generator view `smoke_step_definitions.rb` only copies a module name into a reader and holds no logic to model.
- `IniExamples`: the sample lines are written as concatenations of the pieces the line lemmas speak about. They hold the characters of the test's text.
