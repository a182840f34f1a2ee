# TF-IDF keyword ranking — a Dafny model

The application lets a user upload a `.txt` file or paste text, and shows the words of that
text ranked by inverse document frequency. Its core is four functions of `app.py`:

- `allowed_file` — accept a file name when its last extension is `txt` in any case;
- `clean_text` — lower-case the text and replace every character outside `[a-zа-яё0-9\s]`
  by a space;
- `split_into_documents` — cut the cleaned text at every `"\n\n"`, strip the pieces, drop the
  empty ones, and fall back to the stripped whole text when nothing is left;
- `compute_tf_idf` — count each word's occurrences in the whole text (tf) and the number of
  documents containing it (df), compute `idf = ln(total_docs / (df + 1))`, sort the
  `(word, tf, idf)` rows by idf descending with a stable sort, and keep the first 50.

The model is split along the same lines:

| module | file | models |
|---|---|---|
| `Seqs` | `seqs.dfy` | sequence helpers: distinctness, first index, `min` |
| `Chars` | `chars.dfy` | Python's whitespace set, the kept alphabet, `str.lower` on one character |
| `Normalizer` | `normalizer.dfy` | `str.lower` on strings and `clean_text` |
| `Text` | `text.dfy` | `str.split()`, `str.strip()`, `str.split("\n\n")` |
| `Segmenter` | `segmenter.dfy` | `split_into_documents` |
| `Counting` | `counting.dfy` | the tf `Counter` and the df loop |
| `Ranking` | `ranking.dfy` | the rows, the stable sort by idf, the top-50 cut |
| `Pipeline` | `pipeline.dfy` | `compute_tf_idf` end to end |
| `Upload` | `upload.dfy` | `allowed_file` |

Characters are Dafny `char`s (Unicode scalar values). Whitespace is exactly Python's
`str.isspace` set (the same set the `\s` class, `split()` and `strip()` use). `str.lower` is
modelled exactly for every character whose lower-case form can survive `clean_text`: `A`–`Z`,
the Cyrillic capitals U+0400–U+042F (so `Ё` becomes `ё`), KELVIN SIGN U+212A (becomes `k`)
and LATIN CAPITAL LETTER I WITH DOT ABOVE U+0130 (becomes the two characters `i` and U+0307,
the only case where lower-casing changes the length). Every other character outside the kept
alphabet is left as is: its real lower-case form lies outside the kept alphabet as well, so
`clean_text` turns it into a space either way and the model of `clean_text` is exact.
Characters of the kept alphabet are their own lower case in Python too.

idf is modelled by the argument of the logarithm, the exact rational `total_docs / (df + 1)`
(`Ranking.Ratio`). The natural logarithm is strictly increasing, so sorting by it and sorting
by the ratio give the same order.

The end-to-end contract of `Pipeline.ComputeTfIdf` says that the result is exactly the first
`min(50, number of distinct words)` distinct words of the cleaned text in this order: smaller
df first (greater idf), and among equal df the word that occurs first in the text first —
each with its tf (occurrence count) and idf, and with `1 <= df <= tf` and `df <= total_docs`.

## Model

| member | source | states |
|---|---|---|
| Chars.LowerChar | app.py:25 | a character lands in the kept alphabet after lower-casing exactly when it was in it or is a capital that folds into it; kept characters are unchanged; each capital `A`–`Z` or U+0400–U+042F goes to a different character, the one that `Chars.UpperChar` maps back to it; KELVIN SIGN goes to `k`; no capital of these tables remains; U+0130 is left to `Normalizer.LowerOf` and is no other character's image |
| Chars.LowerCharOnto | app.py:25 | every kept lower-case letter (`a`–`z`, `а`–`я`, `ё`) is the lower case of its capital |
| Normalizer.Lower | app.py:25 | `str.lower` never shortens the text and leaves no capital `A`–`Z` or U+0400–U+042F, no KELVIN SIGN and no U+0130 in it |
| Normalizer.LowerLength | app.py:25 | `str.lower` lengthens the text by one character per U+0130 and by nothing else |
| Normalizer.LowerAppend | app.py:25 | lower-casing distributes over concatenation |
| Normalizer.LowerPointwise | app.py:25 | without U+0130 lower-casing is character by character and keeps the length |
| Normalizer.LowerIdempotent | app.py:25 | lower-casing twice is lower-casing once |
| Normalizer.KeepAllowed | app.py:26 | the substitution keeps the length, keeps every character of `[a-zа-яё0-9\s]` and replaces every other one by one space |
| Normalizer.Clean | app.py:23-27 | every character of the cleaned text is in the kept alphabet; its length is the input length plus one per U+0130 |
| Normalizer.LowerFixesAllowed | app.py:25-26 | a text already made of kept characters is unchanged by lower-casing |
| Normalizer.CleanIdempotent | app.py:23-27 | cleaning a cleaned text changes nothing |
| Normalizer.CleanIgnoresCase | app.py:23-27 | cleaning the lower-cased text gives the same result as cleaning the text |
| Normalizer.CleanPointwise | app.py:23-27 | without U+0130 cleaning keeps the length, maps each character to its lower case when that is kept and to a space otherwise, keeps whitespace, and never creates a non-space where there was whitespace |
| Normalizer.CleanExampleCase | app.py:23-27 | `ABC` cleans to `abc` |
| Normalizer.CleanExampleCyrillic | app.py:23-27 | `Ёж!` cleans to `ёж ` |
| Normalizer.CleanExampleSpecial | app.py:25-26 | U+0130 cleans to `i` and a space; KELVIN SIGN cleans to `k` |
| Text.WordLen | app.py:51 | the first word of a text ends at its first whitespace character or at its end |
| Text.Words | app.py:51 | `split()` yields nonempty whitespace-free words |
| Text.WordsUnwords | app.py:51 | splitting words joined by single spaces gives the words back |
| Text.WordsEmptyIffAllSpace | app.py:51 | `split()` yields no word exactly when the text is all whitespace |
| Text.WordsAppendSpace | app.py:51 | splitting a concatenation whose second part starts with whitespace is the concatenation of the splits |
| Text.Strip | app.py:36 | `strip()` yields the part of the text that starts after its leading whitespace, kept character for character, with no whitespace at either end and only whitespace after it |
| Text.StripAt | app.py:36 | a text with whitespace before position `k` and from `n` on, and non-whitespace at `k` and `n - 1`, strips to the characters from `k` to `n` |
| Text.StripUnique | app.py:36 | a nonempty stripped text between two runs of whitespace is exactly what stripping the whole gives |
| Text.StripEmptyIffAllSpace | app.py:36 | `strip()` yields the empty text exactly when the text is all whitespace |
| Text.StripStripped | app.py:36 | stripping an already stripped text changes nothing |
| Text.WordsStrip | app.py:36 | stripping does not change the words of a text |
| Text.SplitOnBlank | app.py:36 | `split("\n\n")` yields at least one piece |
| Text.SplitOnBlankShape | app.py:36 | no piece of `split("\n\n")` contains `"\n\n"`; no piece before the last ends in a newline; the first piece is a prefix of the text, followed by the separator when there are more |
| Text.JoinSplit | app.py:36 | joining the pieces with `"\n\n"` gives back the text |
| Text.SplitUnique | app.py:36 | any list of pieces that joins to the text and cuts at leftmost separators is the result of `split("\n\n")` |
| Text.SplitKeepsWords | app.py:36 | the words of all pieces, in order, are the words of the text |
| Text.NoBlankInSlice | app.py:36 | a slice of a text without `"\n\n"` has no `"\n\n"` |
| Text.StripNoBlank | app.py:36 | stripping a text without `"\n\n"` cannot create one |
| Segmenter.StrippedPieces | app.py:36 | there are no more kept documents than pieces; which piece each one comes from is stated by `Segmenter.StrippedPiecesIndices` |
| Segmenter.StrippedPiecesAreDocuments | app.py:36 | every kept document is nonempty and stripped |
| Segmenter.StrippedPiecesIndices | app.py:36 | the k-th kept document is the strip of piece `KeptIndices(ps)[k]`; those indices increase strictly, and every piece whose strip is nonempty is among them |
| Segmenter.IndexesSkip | app.py:36 | a first piece whose strip is empty is dropped, the kept indices moving by one |
| Segmenter.IndexesKeep | app.py:36 | a first piece whose strip is nonempty becomes the first document, with index 0 |
| Segmenter.StrippedPiecesNoBlank | app.py:36 | pieces without `"\n\n"` give documents without `"\n\n"` |
| Segmenter.Documents | app.py:30-39 | there is always at least one document and every document is stripped |
| Segmenter.DocumentsNoBlank | app.py:34-39 | a text without `"\n\n"` is one document: its strip |
| Segmenter.DocumentsHaveNoBlank | app.py:36-39 | no document contains `"\n\n"`, so documents are cut wherever the text has a blank line |
| Segmenter.DocumentsArePieces | app.py:36-37 | unless the text is all whitespace, the documents are exactly the stripped nonempty pieces of `split("\n\n")`, in order |
| Segmenter.DocumentsKeepWords | app.py:30-39 | the words of all documents, in order, are exactly the words of the text |
| Segmenter.DocumentsFallback | app.py:36-38 | the result is the single empty document exactly when the text is all whitespace; otherwise every document is nonempty |
| Segmenter.StrippedPiecesKeepsStripped | app.py:36 | pieces that are already nonempty and stripped are kept as they are |
| Segmenter.DocumentsExampleTwo | app.py:30-39 | `cat dog`, blank line, `cat bird` gives the two documents `cat dog` and `cat bird` |
| Segmenter.DocumentsExampleOne | app.py:30-39 | `hello world hello` is the single document `hello world hello` |
| Segmenter.DocumentsExampleBlank | app.py:36-38 | a text of whitespace and blank lines gives the single empty document |
| Counting.Vocabulary | app.py:52 | the `Counter`'s keys are distinct and are exactly the words of the text |
| Counting.VocabularyFirstOccurrence | app.py:52 | the `Counter`'s keys are in order of first occurrence |
| Counting.VocabularySize | app.py:52 | there are as many keys as distinct words |
| Counting.CountTerms | app.py:51-52 | the keys in first-occurrence order, a word has a count exactly when it occurs, and its count is its number of occurrences |
| Counting.TfSum | app.py:51-52 | the term frequencies add up to the number of words |
| Counting.DocFreq | app.py:54-58 | a document frequency never exceeds the number of documents |
| Counting.DocFreqCountsDocuments | app.py:54-58 | the document frequency is the number of documents whose words contain the word, each document counted once |
| Counting.DocFreqPositive | app.py:54-58 | a word has positive document frequency exactly when it is a word of some document |
| Counting.DocFreqAtMostCount | app.py:54-58 | a word's document frequency is at most its number of occurrences across the documents |
| Counting.CountDocument | app.py:56-58 | one pass over a document's distinct words adds one to the count of exactly those words and leaves every other count as it was |
| Counting.CountDocs | app.py:54-58 | a word is a key of the df counter exactly when some document contains it, and its value is its document frequency |
| Counting.WordsExamplePair | app.py:51 | two whitespace-free tokens joined by a space split back into those two tokens |
| Counting.VocabularyExample | app.py:52 | the tokens `cat dog cat bird` give the `Counter` keys `cat`, `dog`, `bird` in that order |
| Counting.DocFreqPair | app.py:54-58 | over two documents, a word's document frequency is the number of those documents whose tokens contain it |
| Counting.DocFreqExample | app.py:54-58 | over the documents `cat dog` and `cat bird`, `cat` has document frequency 2, `dog` and `bird` 1, every other word 0 |
| Ranking.RatioOrder | app.py:63 | for at least one document, a greater or equal idf means a smaller or equal df, and equal idf means equal df |
| Ranking.RatioOrderAll | app.py:63 | the same order statement for every pair of document frequencies |
| Ranking.BuildRows | app.py:60-64 | one row per `Counter` key in key order, with the key's count; with at least one document, a row's idf is at least another's exactly when its df is at most the other's |
| Ranking.InsertPos | app.py:66 | insertion goes after the leading run of rows whose idf is at least its own, and before the row that ends that run, whose idf is smaller |
| Ranking.InsertPermutes | app.py:66 | inserting adds exactly the inserted row |
| Ranking.InsertSorted | app.py:66 | inserting into an idf-descending list keeps it idf-descending |
| Ranking.SortByRatio | app.py:66 | the sort returns a permutation of the rows in idf-descending order |
| Ranking.SortRanked | app.py:66 | the sort is stable: rows of equal idf keep their original relative order |
| Ranking.RankedUnique | app.py:66 | there is only one stable idf-descending permutation, so any stable sort yields the same list |
| Ranking.Top | app.py:67 | the cut keeps the first `min(50, n)` rows |
| Ranking.SortLength | app.py:66 | sorting keeps the number of rows |
| Ranking.TopKeeps | app.py:66-67 | the first rows of an idf-descending list are idf-descending and are some of its rows |
| Ranking.Rank | app.py:60-67 | the ranking has `min(50, distinct words)` rows, in idf-descending order, each one of the built rows |
| Pipeline.RowsContent | app.py:60-64 | one row per distinct word in first-occurrence order, with its tf and the idf of its df; rows are distinct |
| Pipeline.PrecedesIsBefore | app.py:66 | one row comes before another in the stable idf order exactly when its word comes first in the order "smaller df first, then earlier first occurrence" |
| Pipeline.SortedContent | app.py:60-66 | after sorting, every row still carries a word of the text with its tf and the idf of its df |
| Pipeline.SortedOrder | app.py:66 | after the stable sort, an earlier word has smaller df, or equal df and an earlier first occurrence |
| Pipeline.SortedTop | app.py:66-67 | a word cut off by the top-50 truncation comes after every word kept |
| Pipeline.RankContent | app.py:60-67 | the ranking has `min(50, distinct words)` rows, each a word of the text with its tf and idf |
| Pipeline.RankOrder | app.py:60-67 | the ranked words are ordered by df, then by first occurrence |
| Pipeline.RankTop | app.py:60-67 | every word of the text left out of the ranking comes after every ranked word |
| Pipeline.DocFreqBounds | app.py:51-58 | every word of the text has `1 <= df <= tf` and `df <= total_docs` |
| Pipeline.ComputeTfIdf | app.py:42-67 | `compute_tf_idf` returns the first `min(50, distinct words)` words of the cleaned text by ascending df (descending idf), ties in order of first occurrence, each with its tf and idf, `1 <= df <= tf`, `df <= total_docs`, and idf non-increasing down the list |
| Upload.AfterLastDot | app.py:20 | `rsplit('.', 1)[1]` is the dot-free suffix after the last dot |
| Upload.LowerIsTxt | app.py:20 | a string lower-cases to `txt` exactly when it is `txt` in some mix of cases |
| Upload.AllowedFile | app.py:18-20 | a file name is accepted exactly when it ends in a dot followed by `t`, `x`, `t` in either case |
| Upload.DotTxtSuffix | app.py:20 | a name ends in `.txt` (any case) exactly when the text after its last dot is `txt` in some case |
| Upload.DotTxtIff | app.py:20 | the test `'.' in filename and rsplit('.', 1)[1].lower() in ALLOWED_EXTENSIONS` holds exactly for names ending in `.txt` (any case) |
| Upload.AllowedFileExampleUpper | app.py:18-20 | `a.TXT` is accepted |
| Upload.AllowedFileExampleNoDot | app.py:18-20 | `txt` without a dot is refused |
| Upload.AllowedFileExampleDouble | app.py:18-20 | `a.txt.gz` is refused: only the last extension counts |

## Left out

- The Flask routes (`app.py:70-123`): reading the uploaded file or form field, saving it with
  `secure_filename`, flashing messages and rendering templates are I/O and web framework code.
- Ranking.Ratio: idf is the rational `total_docs / (df + 1)`, not its natural logarithm; the
  logarithm's values and floating-point rounding are not modelled. Only the order matters for
  the ranking, and the logarithm is strictly increasing, so the ranking is the same provided
  that distinct ratios give distinct floating-point logarithms; that holds for any realistic
  number of documents, since two ratios `total_docs / (df + 1)` with different df differ by a
  factor of at least `(df + 2) / (df + 1)`, far above double-precision rounding, and equal df
  give the very same float computation. The idf values themselves (including the negative ones
  when `df + 1 > total_docs`) are not stated.
- Chars.LowerChar: characters whose lower case stays outside the kept alphabet (Greek capitals,
  say) are mapped to themselves rather than to their real lower case; `clean_text` turns them
  into a space either way, so only `Normalizer.Lower` on its own is weaker than `str.lower`.
- Normalizer.Lower: capitals outside `A`–`Z`, U+0400–U+042F, KELVIN SIGN and U+0130 (À, Ґ,
  the Greek capitals, and so on) stay unchanged instead of being lower-cased. Neither
  `clean_text` nor `allowed_file` can see the difference: their lower-case forms are outside
  `[a-zа-яё0-9\s]`, so `clean_text` replaces them by a space either way, and none of them
  lower-cases to `t` or `x`, so `Upload.LowerIsTxt` still states exactly which extensions
  Python accepts.
- Counting.CountDocs: the df loop visits each document's word set in first-occurrence order,
  not in Python's set iteration order; the counts do not depend on the order.
- Ranking.SortByRatio: an insertion sort stands for Python's `list.sort`; `Ranking.RankedUnique`
  shows that every stable sort gives the same list.
- The docstring of `split_into_documents` (`app.py:31-35`) promises that blank lines separate
  documents and that a text without blank lines is one document. The code keeps that promise
  through `split("\n\n")` itself (`Segmenter.DocumentsNoBlank`, `Segmenter.DocumentsHaveNoBlank`);
  the docstring does not mention the fallback `[text.strip()]`, which the code reaches only for
  an all-whitespace text and which then yields the single empty document
  (`Segmenter.DocumentsFallback`). A "blank line" is the literal `"\n\n"`: a line holding only
  spaces or tabs between two newlines does not separate documents.
