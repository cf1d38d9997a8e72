# librarian — a verified model of its document stores, codecs and trigram search

librarian keeps a personal library of documents (books, papers). Over its history the repository
has held several variants of the same core, and this project models each of them:

- the `librarian` command-line tool (`src/library.rs`, `src/book.rs`) and its `legacy` book
  record (`legacy/src/book.rs`): books keyed by a 32-byte content hash, looked up by a unique
  hex prefix of that hash through an ordered range scan; stored, extended and edited in place;
- the shared record of `librarian-core` (`librarian-core/src/lib.rs`): a document with its
  32-byte hash, shown as 64 hex digits, which also names the stored file;
- the `librarian-server` store (`librarian-server/src/library.rs`): documents keyed by a
  counter-assigned id, soft removal (`show = false`), a search engine filled at load time;
- the `lbr-server` store (`lbr-server/src/library.rs`, `lbr-server/src/doc.rs`): documents
  renumbered `0 .. n - 1` each time the index file is read, indexed on load and on insertion,
  and taken out of the index on removal;
- the `lbr-server` search engine (`lbr-server/src/text/mod.rs`, `lbr-server/src/text/index.rs`):
  three trigram indexes (title, authors, keywords) that count, per gram, how often each document
  contains it, and score a query by term frequency times inverse document frequency, best
  first, ten at most.

Modules follow the source files: `Text` (lower-casing and UTF-8 lengths), `Hex` (the `hex`
crate's encoding and `decode_to_slice`), `Decimal` (the decimal text of a `usize`), `CoreDoc`,
`LegacyBook`, `SrcBook`, `SrcLibrary`, `GramIndex`, `SearchEngine`, `LbrDoc`, `LbrLibrary`,
`ServerLibrary`, and `Results` (the `Result` and `Option` types).

The model follows the code, including these behaviours a reader of the code may not expect:

- removing a document from the lbr-server engine leaves a residue that later searches still
  find (see Findings), although the store's `remove` (lbr-server/src/library.rs:63-67) deletes
  the document from its map, so `search` can return an id that `get` no longer holds;
- the librarian-server store neither takes hidden documents out of the engine nor filters them
  from search results: until the library is loaded again, `search` still ranks them
  (`ServerLibrary.Library.Search`);
- a failed `insert` in the librarian-server store still advances the id counter, and a failed
  `store` in the command-line tool has already put the book into the map
  (`ServerLibrary.Library.Insert`, `SrcLibrary.StoreEffect`);
- ids are not stable in lbr-server: reading the index file numbers the documents by position,
  so a gap left by a removal closes up (`LbrDoc.GapRenumbered`);
- an odd-length hash prefix is looked up with the wrong final nibble (see Findings).

The one exception is the lbr-server store's `remove`, which the model gives the corrected engine
removal (see Left out).

## Model

| member | source | states |
|---|---|---|
| Text.Lower | lbr-server/src/text/mod.rs:47 | the lower-cased text has the input's length, holds no upper-case letter, and differs from the input only where an upper-case letter became its lower-case letter |
| Text.LowerIdempotent | lbr-server/src/text/mod.rs:47 | lower-casing twice is lower-casing once, and leaves no upper-case letter |
| Text.LowerAppend | lbr-server/src/text/mod.rs:47 | lower-casing works piece by piece over a concatenation |
| Text.Utf8Char | lbr-server/src/text/mod.rs:48 | a character takes one to four bytes, exactly one when it is ASCII, and then its own code |
| Text.Utf8Append | lbr-server/src/text/mod.rs:48 | the bytes of a concatenation are the concatenated bytes |
| Text.ByteLen | src/library.rs:21 | the byte length of a string lies between its character count and four times that |
| Text.Utf8Ascii | src/library.rs:21 | an ASCII string has as many bytes as characters |
| Hex.HexVal | legacy/src/book.rs:114 | a hex digit's value is below 16 and encodes back to the digit, lower-cased |
| Hex.Encode | legacy/src/book.rs:101 | the encoding has two digits per byte |
| Hex.Decode | legacy/src/book.rs:113-114 | a decode into an n-byte buffer succeeds only on 2n digits, and then fills exactly the n bytes |
| Hex.DecodeSucceeds | legacy/src/book.rs:113-114 | decoding into n bytes succeeds exactly on 2n hex digits |
| Hex.DecodeEncode | legacy/src/book.rs:96-117 | decoding an encoding gives the bytes back |
| Hex.EncodeDecode | legacy/src/book.rs:96-117 | encoding what was decoded gives the input back, lower-cased |
| Hex.EncodeIsLowerHex | legacy/src/book.rs:101 | an encoding is made of hex digits and is already lower-case |
| Hex.EncodeInjective | legacy/src/book.rs:101 | different bytes have different encodings |
| Hex.EncodeAppend | legacy/src/book.rs:101 | encoding works piece by piece over a concatenation |
| Hex.EncodeAt | legacy/src/book.rs:101 | digit 2i is byte i's high nibble, digit 2i+1 its low nibble |
| Hex.LexLeTotalOrder | legacy/src/book.rs:75 | the derived order of byte arrays, which orders the hashes of `legacy/src/book.rs`, `src/book.rs` and `librarian-core`, is reflexive, total, antisymmetric and transitive |
| Hex.PrefixBand | src/library.rs:39-46 | the keys between p padded with 00 bytes and p padded with ff bytes are exactly those starting with p |
| Hex.NibblePrefix | src/library.rs:31-35 | a key's name starts with p's digits and one more digit d exactly when its bytes start with p and the next byte's high nibble is d |
| Hex.BytePrefixDigits | src/library.rs:39-46 | a key starts with the bytes p exactly when its name starts with p's digits |
| Hex.PrefixOrdered | src/library.rs:43-46 | the two bounds of a prefix scan are in order |
| Hex.PadOrdered | src/library.rs:43-46 | the two bounds of a nibble scan are in order |
| Decimal.Show | librarian-server/src/library.rs:105-109 | an id is written as at least one decimal digit, without leading zeros |
| Decimal.ParseShow | librarian-server/src/library.rs:97-109 | parsing the text an id is written as gives the id back (the same `DocId` text is used by lbr-server/src/doc.rs:17-29) |
| Decimal.Accumulate | librarian-server/src/library.rs:100-102 | the digit loop succeeds only on digits, never reports an empty input, and keeps an in-range value in range |
| Decimal.Parse | librarian-server/src/library.rs:97-103 | only the empty text fails as empty, and a parsed id fits a usize |
| Decimal.ParseAccepts | librarian-server/src/library.rs:97-103 | only an optional plus sign followed by decimal digits parses |
| CoreDoc.ShowHash | librarian-core/src/lib.rs:41-45 | a hash is written with 64 characters, two per byte |
| CoreDoc.ParseHash | librarian-core/src/lib.rs:31-39 | parsing accepts exactly 64 hex digits in either case, and the hash it gives is written back as their lower-case form |
| CoreDoc.ShowHashShape | librarian-core/src/lib.rs:41-45 | a hash is written as 64 lower-case hex digits |
| CoreDoc.ParseShowHash | librarian-core/src/lib.rs:31-45 | parsing a written hash gives the hash back |
| CoreDoc.ShowHashInjective | librarian-core/src/lib.rs:41-45 | different hashes are written differently |
| CoreDoc.Filename | librarian-core/src/lib.rs:16-19 | a file name is 64 characters, a dot, then the extension |
| CoreDoc.FilenameParts | librarian-core/src/lib.rs:16-19 | a file name splits back into the written hash, a dot and the extension |
| LegacyBook.Collect | legacy/src/book.rs:9-11 | the collected set holds exactly the listed strings and is never larger than the list |
| LegacyBook.CollectSnoc | src/library.rs:232-238 | inserting one more listed string adds it to the set |
| LegacyBook.CollectSize | legacy/src/book.rs:9-11 | a string listed again adds nothing to the set |
| LegacyBook.ConversionsInverse | legacy/src/book.rs:78-94 | the conversions between hashes and byte arrays undo each other |
| LegacyBook.DeserializeHash | legacy/src/book.rs:106-117 | a hash deserialises exactly from 64 hex digits in either case, and serialises back as their lower-case form |
| LegacyBook.SerializeHashShape | legacy/src/book.rs:96-104 | a serialised hash is 64 lower-case hex digits |
| LegacyBook.DeserializeSerialize | legacy/src/book.rs:96-117 | deserialising a serialised hash gives it back |
| LegacyBook.IsbnDigits | legacy/src/book.rs:16-21 | the filtered ISBN is no longer than the input and holds only numeric characters (by the Unicode table given) and X |
| LegacyBook.IsbnKey | legacy/src/book.rs:16-21 | the key is "ISBN:" followed only by numeric characters and X, at most one per input character |
| LegacyBook.IsbnDigitsAppend | legacy/src/book.rs:18-20 | filtering keeps the kept characters in input order |
| LegacyBook.IsbnDigitsCounts | legacy/src/book.rs:18-20 | every numeric character and X is kept as often as it occurs, every other character is dropped |
| LegacyBook.IsbnDigitsKeepsClean | legacy/src/book.rs:18-20 | an input is left unchanged exactly when it holds only numeric characters and X |
| LegacyBook.IsbnDigitsAscii | legacy/src/book.rs:18-20 | on ASCII input, for any table that agrees with `is_numeric` on ASCII, the filter keeps exactly the digits 0 to 9 and X |
| SrcBook.ExtensionName | src/book.rs:30-37 | every extension is named by one of the four lower-case names |
| SrcBook.ParseExtension | src/book.rs:20-28 | parsing accepts exactly the strings whose lower-case form is one of the four names, and the extension it gives is named by that form |
| SrcBook.ParseExtensionName | src/book.rs:20-37 | every extension parses back from its name |
| SrcBook.ParseExtensionAccepts | src/book.rs:20-28 | parsing ignores case: a string parses as its lower-case form does |
| SrcBook.DeserializeHash | src/book.rs:65-76 | a hash deserialises exactly from 32 hex digits in either case, and serialises back as their lower-case form |
| SrcBook.SerializeRoundTrip | src/book.rs:55-76 | a serialised hash is 32 lower-case hex digits and deserialises back to itself |
| SrcLibrary.ResolveOutcomes | src/library.rs:48-56 | no key in range is not-found, exactly one is that key, two or more is a collision |
| SrcLibrary.GetHashReturnsKey | src/library.rs:20-66 | a returned hash is a key of the library whose name starts with the input |
| SrcLibrary.EmptyPrefix | src/library.rs:20-56 | the empty prefix succeeds exactly when the library holds one book, and names it |
| SrcLibrary.FullHash | src/library.rs:57-62 | 64 digits find their hash exactly when it is a key, else not-found |
| SrcLibrary.FullHashAsWritten | src/library.rs:57-65 | from 64 digits on, the code and the intended lookup agree |
| SrcLibrary.BandKey | src/library.rs:39-46 | a key lies in the scan band of p exactly when it starts with p |
| SrcLibrary.PrefixKey | src/library.rs:39-46 | a key lies in the scan band of p exactly when its name starts with p's digits |
| SrcLibrary.NibbleBandKey | src/library.rs:31-46 | a key lies in a nibble band exactly when it starts with q and its next byte is in the band |
| SrcLibrary.NibbleKey | src/library.rs:31-46 | a key lies in a 16-wide nibble band exactly when its next byte has the band's high nibble |
| SrcLibrary.NibbleName | src/library.rs:31-46 | a key's name starts with q's digits and d exactly when its bytes start with q and then a byte of high nibble d |
| SrcLibrary.HighNibble | src/library.rs:33-34 | a byte lies in the 16 bytes below a top ending in f exactly when it shares the top's high nibble |
| SrcLibrary.SameKeys | src/library.rs:43-46 | the scan finds exactly the keys named by the prefix when band and name agree on every key |
| SrcLibrary.EvenRange | src/library.rs:29-30 | an even-length prefix decodes into bounds whose scan finds exactly the keys named by the prefix |
| SrcLibrary.OddDigits | src/library.rs:31-35 | an odd prefix decodes with its extra f into bytes whose last high nibble is the prefix's last digit |
| SrcLibrary.NibbleRange | src/library.rs:31-46 | a nibble scan finds exactly the keys named by q's digits and the last byte's high digit |
| SrcLibrary.NibbleOrdered | src/library.rs:33-46 | the bounds of a nibble scan are in order |
| SrcLibrary.HexByteLen | src/library.rs:21 | a hex string has one byte per character |
| SrcLibrary.DigitsDecode | src/library.rs:28-37 | the padded digits decode exactly when the input is hex, and are the input plus f when odd |
| SrcLibrary.ShortAsWritten | src/library.rs:23-56 | below 64 digits the code scans from the decoded bytes padded with 00 to them padded with ff |
| SrcLibrary.ShortEven | src/library.rs:29-56 | an even-length prefix is resolved by the scan of its decoded bytes |
| SrcLibrary.ShortOdd | src/library.rs:31-56 | the nibble scan of an odd prefix finds exactly the keys named by the prefix |
| SrcLibrary.NibbleRangeOf | src/library.rs:31-46 | the nibble scan of a decoded prefix finds exactly the keys named by its digits |
| SrcLibrary.GetHashOddPrefixMisses | src/library.rs:31-41 | on "abc" and the single hash ab c0 00…, the code reports not-found while the intended lookup finds the hash |
| SrcLibrary.AbcAsWritten | src/library.rs:31-41 | the code misses the hash ab c0 00… on "abc" |
| SrcLibrary.AbcIntended | src/library.rs:20-56 | the intended lookup finds the hash ab c0 00… on "abc" |
| SrcLibrary.AbcDigits | src/library.rs:31-41 | the name of ab c0 00… starts with "abc" but not with "abcf" |
| SrcLibrary.AfterLast | src/library.rs:129-131 | the split point follows the last separator, with none after it |
| SrcLibrary.TrimSlashes | src/library.rs:128 | trailing separators are dropped and nothing else |
| SrcLibrary.FileName | src/library.rs:129-131 | a file name is never empty, ".", ".." or holding a separator |
| SrcLibrary.NameExtension | src/library.rs:129-131 | an extension holds no dot |
| SrcLibrary.Join | src/library.rs:288 | joining puts at most one separator between directory and name |
| SrcLibrary.AfterLastSplit | src/library.rs:129-131 | the last separator before a separator-free tail is the one found |
| SrcLibrary.AfterLastSkip | src/library.rs:129-131 | characters other than the separator at the end do not move the split |
| SrcLibrary.FileNameAfter | src/library.rs:129-131 | a plain name after a separator is the path's file name |
| SrcLibrary.ExtensionFound | src/library.rs:128-134 | a file name.ext in any directory has the extension ext, lower-cased |
| SrcLibrary.ExtensionMissing | src/library.rs:128-131 | a file name without a dot past its first character has no extension |
| SrcLibrary.ExtensionOf | src/library.rs:128-134 | a recorded extension holds no dot and no separator and is lower-case |
| SrcLibrary.Path | src/library.rs:284-289 | the stored file sits directly under the root: the root, at most one separator, then the hex hash, a dot and the extension |
| SrcLibrary.PathFileName | src/library.rs:284-289 | a book's file is named by its hex hash, a dot and its extension, whatever the root |
| SrcLibrary.FileNameOfJoin | src/library.rs:288 | joining a plain name onto a directory gives a path whose file name is that name |
| SrcLibrary.StoreOutcome | src/library.rs:121-164 | storing never loses a book, adds at most the file's hash, and changes no book under another hash |
| SrcLibrary.StoreEffect | src/library.rs:121-164 | before the hash is known nothing changes; after, the new book sits under its hash with the given title, authors and keywords and a lower-case extension, other books unchanged, even when the hash was taken or the copy failed |
| SrcLibrary.StoreOkIsNew | src/library.rs:150-155 | storing succeeds exactly on a readable file with an extension, a new hash and a successful copy, and then adds one book |
| SrcLibrary.AddNamesEffect | src/library.rs:232-238 | adding names keeps the title and extension, loses no name, adds exactly the listed ones, and is idempotent |
| SrcLibrary.ReplacedEffect | src/library.rs:263-273 | a field given replaces the book's, one not given stays, the extension never changes, and an empty update changes nothing |
| SrcLibrary.Library.WithRoot | src/library.rs:68-73 | a new library is empty under the given root |
| SrcLibrary.Library.Scan | src/library.rs:43-56 | the range scan resolves the keys between the two bounds |
| SrcLibrary.Library.GetHash | src/library.rs:20-66 | the lookup as written, and a found hash is a key |
| SrcLibrary.Library.GetHashCorrected | src/library.rs:20-66 | the lookup with the odd-prefix bound corrected is the intended one, and a found hash is a key |
| SrcLibrary.Library.PrefixLookup | src/library.rs:23-56 | below 64 digits the code computes the lookup as written |
| SrcLibrary.Library.PrefixLookupCorrected | src/library.rs:23-56 | below 64 digits the corrected code computes the intended lookup |
| SrcLibrary.Library.ScanPrefix | src/library.rs:39-56 | scanning a prefix's band resolves the keys in it |
| SrcLibrary.Library.ScanNibble | src/library.rs:31-56 | scanning a nibble band resolves the keys in it |
| SrcLibrary.Library.FullLookup | src/library.rs:57-65 | from 64 digits on, the code computes the intended lookup |
| SrcLibrary.Library.Store | src/library.rs:121-164 | the new map and the result are the store outcome of the old map |
| SrcLibrary.Library.UpdateAdd | src/library.rs:219-247 | the prefix is resolved by `get_hash` as written; a lookup failure changes nothing; otherwise the named book gets the names added and nothing else changes |
| SrcLibrary.Library.Update | src/library.rs:249-282 | the prefix is resolved by `get_hash` as written; a lookup failure changes nothing; otherwise the named book gets the given fields replaced and nothing else changes |
| SrcLibrary.ClearLastNibble | src/library.rs:33-34 | the low bound's last decoded byte drops by 15, the rest is unchanged |
| SrcLibrary.Bounds | src/library.rs:25-41 | the bounds are the decoded bytes padded with ff and with 00 |
| GramIndex.Least | lbr-server/src/library.rs:32 | the smallest id of a non-empty set, the next one a BTreeMap iteration visits |
| GramIndex.LeastOf | lbr-server/src/library.rs:32 | every non-empty set of ids has a smallest one |
| GramIndex.Freqs.Ids | lbr-server/src/text/index.rs:20-22 | the ids are exactly those counted at least once |
| GramIndex.Freqs.Docs | lbr-server/src/text/index.rs:24-26 | the document count is the number of ids counted at least once |
| GramIndex.Freqs.Weight | lbr-server/src/text/index.rs:28-31 | a counted id weighs more than 0.5 and at most 1, an uncounted one exactly 0.5 |
| GramIndex.Freqs.Increase | lbr-server/src/text/index.rs:33-39 | the id's count grows by one, others stay, the id joins the ids, the maximum follows, validity kept |
| GramIndex.Freqs.Decrease | lbr-server/src/text/index.rs:41-49 | the id's count drops by one and its entry goes at zero, others stay, the maximum stays |
| GramIndex.Freqs.Drop | lbr-server/src/text/index.rs:97-102 | the id's entry goes whatever its count, others stay, the maximum stays, validity kept |
| GramIndex.AllWindowsMembers | lbr-server/src/text/index.rs:85-86 | a gram of several texts is a window of one of them |
| GramIndex.AllWindowsLength | lbr-server/src/text/index.rs:86-87 | every gram is n bytes long |
| GramIndex.AllWindowsSingle | lbr-server/src/text/index.rs:84-95 | the grams of one text are its windows |
| GramIndex.AddAllAppend | lbr-server/src/text/index.rs:85-93 | adding two runs of grams is adding the first, then the second |
| GramIndex.AddAllValid | lbr-server/src/text/index.rs:74-80 | adding grams keeps every entry well-formed and adds exactly the new grams as keys |
| GramIndex.AddAllCount | lbr-server/src/text/index.rs:74-80 | the id's count of a gram grows by the gram's occurrences, other ids' counts stay, no maximum drops |
| GramIndex.Decreased | lbr-server/src/text/index.rs:98-100 | decreasing keeps the set of grams |
| GramIndex.DecreasedAll | lbr-server/src/text/index.rs:98-100 | decreasing every gram, in any order, gives the decreased map |
| GramIndex.RemovedEffect | lbr-server/src/text/index.rs:97-102 | removal lowers the id's count of every gram by one, leaves other ids' counts and every maximum |
| GramIndex.DecreasedAt | lbr-server/src/text/index.rs:98-100 | each gram's entry is its own entry decreased |
| GramIndex.Purged | lbr-server/src/text/index.rs:97-102 | the corrected removal keeps the set of grams |
| GramIndex.PurgedEffect | lbr-server/src/text/index.rs:97-102 | the corrected removal zeroes the id's count of every gram and leaves other ids' counts |
| GramIndex.PurgedAt | lbr-server/src/text/index.rs:98-100 | under the corrected removal each gram's entry is its own entry with the id dropped |
| GramIndex.PurgedAll | lbr-server/src/text/index.rs:98-100 | dropping the id from every gram, in any order, gives the purged map |
| GramIndex.Idf | lbr-server/src/text/index.rs:63 | a gram held by at most one document is worth the logarithm of the document count |
| GramIndex.IdfRarer | lbr-server/src/text/index.rs:63 | for an increasing logarithm, a gram held by fewer documents is worth at least as much |
| GramIndex.Gains | lbr-server/src/text/index.rs:61-65 | one gram scores exactly its documents |
| GramIndex.PartialGram | lbr-server/src/text/index.rs:61-65 | the scores after some of a gram's documents cover the old ids and those documents |
| GramIndex.PartialGramStep | lbr-server/src/text/index.rs:64-65 | one more document adds its gain to its score, starting from 0 |
| GramIndex.Scores | lbr-server/src/text/index.rs:56-71 | only documents the index holds under some gram are scored |
| GramIndex.ScoresKeys | lbr-server/src/text/index.rs:56-71 | a document is scored exactly when one of the query's grams counts it |
| GramIndex.DenserScoresHigher | lbr-server/src/text/index.rs:28-31 | for one informative gram, a document holding it more often scores higher |
| GramIndex.WeightMonotone | lbr-server/src/text/index.rs:28-31 | a higher count gives a higher weight |
| GramIndex.GainsMonotone | lbr-server/src/text/index.rs:61-65 | a higher weight gives a higher gain for a positive idf |
| GramIndex.InsertedTextIsFound | lbr-server/src/text/index.rs:73-82 | after inserting a text, a query that is a slice of it of at least n bytes scores the document |
| GramIndex.AddGramScores | lbr-server/src/text/index.rs:61-66 | the loop over one gram's documents adds each one's gain |
| GramIndex.Index.constructor | lbr-server/src/text/index.rs:7-11 | a new index is empty |
| GramIndex.Index.AddWindows | lbr-server/src/text/index.rs:74-80 | every window of the text counts once more for the id, the document count stays |
| GramIndex.Index.Insert | lbr-server/src/text/index.rs:73-82 | the text's windows are added for the id and the document count grows by one |
| GramIndex.Index.InsertMany | lbr-server/src/text/index.rs:84-95 | the windows of every text are added for the id and the document count grows by one in all |
| GramIndex.Index.Remove | lbr-server/src/text/index.rs:97-102 | every gram is decreased once for the id and the document count drops by one |
| GramIndex.Index.Purge | lbr-server/src/text/index.rs:97-102 | the corrected removal drops the id from every gram and the document count drops by one |
| GramIndex.Index.Search | lbr-server/src/text/index.rs:56-71 | the scores are the sum over the query's windows of weight times idf, none for a short query |
| SearchEngine.Combined | lbr-server/src/text/mod.rs:50-58 | a document is a candidate exactly when one of the three fields scored it |
| SearchEngine.CombinedScore | lbr-server/src/text/mod.rs:46-58 | a document's score is the sum of its three field scores, and it is scored when any field scores it |
| SearchEngine.HitIdsAppend | lbr-server/src/text/mod.rs:60 | the ids of two runs of hits are both runs' ids |
| SearchEngine.InsertHit | lbr-server/src/text/mod.rs:61 | inserting a hit lengthens the ranking by one |
| SearchEngine.InsertHitPermutes | lbr-server/src/text/mod.rs:61 | inserting a hit adds exactly that hit |
| SearchEngine.InsertHitOrdered | lbr-server/src/text/mod.rs:61 | inserting into a descending ranking keeps it descending |
| SearchEngine.InsertHitDistinct | lbr-server/src/text/mod.rs:61 | inserting a new id keeps the ids distinct |
| SearchEngine.PermutedIds | lbr-server/src/text/mod.rs:61 | permuting hits keeps their ids |
| SearchEngine.SortHits | lbr-server/src/text/mod.rs:61 | sorting keeps the number of hits |
| SearchEngine.SortHitsCorrect | lbr-server/src/text/mod.rs:61 | sorting permutes the hits into descending score order and keeps ids distinct |
| SearchEngine.RankedListing | lbr-server/src/text/mod.rs:60-62 | sorting all scores and truncating gives the top hits: distinct, descending, scored, none left out higher |
| SearchEngine.PrefixKeeps | lbr-server/src/text/mod.rs:62 | truncating keeps a ranking distinct and descending |
| SearchEngine.SortedEntries | lbr-server/src/text/mod.rs:60-61 | every sorted hit carries its document's score |
| SearchEngine.SortedHasId | lbr-server/src/text/mod.rs:60-61 | every scored document appears among the sorted hits |
| SearchEngine.Indices.constructor | lbr-server/src/text/mod.rs:14-22 | a new engine has three empty indexes |
| SearchEngine.Indices.Insert | lbr-server/src/text/mod.rs:24-38 | the lower-cased title and each author and keyword go into their indexes |
| SearchEngine.Indices.Remove | lbr-server/src/text/mod.rs:40-44 | the id is removed from the three indexes as written |
| SearchEngine.Indices.Purge | lbr-server/src/text/mod.rs:40-44 | the id is removed from the three indexes by the corrected removal |
| SearchEngine.Indices.Search | lbr-server/src/text/mod.rs:46-64 | the result is the top hits of the summed field scores, at most the limit |
| SearchEngine.AddScores | lbr-server/src/text/mod.rs:52-58 | the merge loop adds every score of the second map into the first |
| SearchEngine.Collect | lbr-server/src/text/mod.rs:60 | collecting lists every scored document once with its score |
| SearchEngine.ListingStep | lbr-server/src/text/mod.rs:60 | one more collected entry extends the listing |
| SearchEngine.InsertedTitleIsFound | lbr-server/src/text/mod.rs:24-50 | after inserting a document, any slice of its title of at least three bytes finds it |
| SearchEngine.FieldBytesSlice | lbr-server/src/text/mod.rs:47-48 | a slice of a field, lower-cased and encoded, is a slice of the field's bytes |
| SearchEngine.HoldsNothing | lbr-server/src/text/mod.rs:14-22 | a new engine holds no document |
| SearchEngine.FieldInsert | lbr-server/src/text/index.rs:73-95 | inserting a document an index does not hold makes it hold exactly one more |
| SearchEngine.HoldsInsert | lbr-server/src/text/mod.rs:24-38 | inserting a document the engine does not hold makes it hold exactly one more |
| SearchEngine.FieldPurge | lbr-server/src/text/index.rs:97-102 | the corrected removal of a held document leaves an index holding exactly the others |
| SearchEngine.HoldsPurge | lbr-server/src/text/mod.rs:40-44 | the corrected removal of a held document leaves the engine holding exactly the others |
| SearchEngine.PurgedNotFound | lbr-server/src/text/mod.rs:40-64 | after the corrected removal no query finds the document |
| SearchEngine.PurgedMisses | lbr-server/src/text/index.rs:56-71 | after the corrected removal an index scores the document for no query |
| SearchEngine.AaaGrams | lbr-server/src/text/index.rs:74 | the title "aaaa" gives the gram "aaa" twice, the query "aaa" once |
| SearchEngine.AaaInserted | lbr-server/src/text/index.rs:73-82 | after inserting "aaaa" as document 0 its count of "aaa" is 2 |
| SearchEngine.RemoveLeavesResidue | lbr-server/src/text/index.rs:97-102 | after inserting and removing document 0 titled "aaaa", the query "aaa" still finds it |
| SearchEngine.TopHitsIds | lbr-server/src/library.rs:41 | the ids of the top hits are the top ids |
| LbrDoc.Range | lbr-server/src/doc.rs:37-38 | the ids from lo to hi, exclusive, as many as that |
| LbrDoc.DeserializeDocs | lbr-server/src/doc.rs:31-40 | every document is keyed by its position, and the ids are exactly 0 to n - 1 |
| LbrDoc.SerializeDocs | lbr-server/src/doc.rs:42-47 | every document of the map is written once and nothing else |
| LbrDoc.SerializeFirst | lbr-server/src/doc.rs:42-47 | the document under the smallest id is written first, followed by the rest |
| LbrDoc.SerializeSplit | lbr-server/src/doc.rs:42-47 | when every id of one map is below every id of another, the documents of the first are all written before those of the second, each part in its own order |
| LbrDoc.Shifted | lbr-server/src/doc.rs:35-39 | documents keyed from a, a + 1 and onwards |
| LbrDoc.SerializeShifted | lbr-server/src/doc.rs:42-47 | writing documents keyed in order lists them in that order |
| LbrDoc.SerializeDeserialize | lbr-server/src/doc.rs:31-47 | writing the documents just read gives back the same list |
| LbrDoc.DeserializeSerialize | lbr-server/src/doc.rs:31-47 | reading back what was written restores a map keyed 0 to n - 1 |
| LbrDoc.GapRenumbered | lbr-server/src/doc.rs:31-47 | with id 1 removed, writing and reading brings document 2 back as document 1 |
| LbrLibrary.IndexOne | lbr-server/src/library.rs:33 | one turn of loading indexes one more document |
| LbrLibrary.IndexAll | lbr-server/src/library.rs:32-34 | loading indexes exactly the stored documents |
| LbrLibrary.SyncInsert | lbr-server/src/library.rs:55-59 | inserting a new document keeps engine and map in step |
| LbrLibrary.SyncRemove | lbr-server/src/library.rs:63-65 | removing a stored document with the corrected removal keeps engine and map in step |
| LbrLibrary.Library.FromFile | lbr-server/src/library.rs:27-38 | the documents are numbered by position, all indexed, and the counter is past every id |
| LbrLibrary.Library.Search | lbr-server/src/library.rs:40-42 | the ids of the ten best-scoring documents, best first |
| LbrLibrary.Library.Get | lbr-server/src/library.rs:44-46 | the stored document, whose fields the engine holds under its id while the library is in step |
| LbrLibrary.Library.Insert | lbr-server/src/library.rs:55-61 | the document takes the counter's unused id and enters map and engine, which stay in step; the write outcome is reported |
| LbrLibrary.Library.Remove | lbr-server/src/library.rs:63-67 | the document leaves map and engine, which stay in step; the write outcome is reported |
| ServerLibrary.Lookup | librarian-server/src/library.rs:44-56 | a document is found exactly when it is stored and shown, and is then the stored one; otherwise the error names the id |
| ServerLibrary.LoadStep | librarian-server/src/library.rs:31-35 | one loading step indexes the document exactly when it is shown |
| ServerLibrary.HideEffect | librarian-server/src/library.rs:76-79 | removal makes the document unfindable, keeps every other lookup and every entry, and is idempotent |
| ServerLibrary.IndexOne | librarian-server/src/library.rs:32-34 | one turn of loading indexes the document if it is shown |
| ServerLibrary.IndexShown | librarian-server/src/library.rs:31-35 | loading indexes exactly the shown documents |
| ServerLibrary.Library.FromFile | librarian-server/src/library.rs:26-38 | documents and counter as read, and exactly the shown documents indexed |
| ServerLibrary.Library.Search | librarian-server/src/library.rs:40-42 | the ids of the ten best-scoring indexed documents, best first |
| ServerLibrary.Library.Get | librarian-server/src/library.rs:44-49 | a document is got exactly when it is stored and shown, and is then the stored one |
| ServerLibrary.Library.NewId | librarian-server/src/library.rs:87-91 | the counter is handed out and advanced, and the id is unused |
| ServerLibrary.Library.Insert | librarian-server/src/library.rs:65-74 | the counter advances; a failed copy stores nothing, a successful one stores the document under the new id and reports the persist outcome |
| ServerLibrary.Library.Remove | librarian-server/src/library.rs:76-79 | the document is hidden, not deleted; a missing or hidden one is not-found |

## Left out

- Reading files, the `LBRPATH` variable, JSON (de)serialisation of the index file, copying
  files, and writing the index back: loading starts from the decoded contents, and whether a
  copy or a write succeeds is a parameter (`copy`, `saved`).
- lbr-server's `write` opens `index.json` with `File::open`, which is read-only, so in practice
  every write fails after the in-memory change; and its `from_file` opens the `LBRPATH`
  directory itself rather than `index.json`. Both are I/O outcomes, left to the `saved`
  parameter.
- The blake3 hash of a file is an input (`read` in `SrcLibrary.StoreOutcome`, the `hash` field
  of `CoreDoc.Doc`), not computed.
- `open::that`, the editor of `legacy/src/book.rs` (`edit`), the Open Library request of
  `get_info` and `set_info_from_api` (only the ISBN key they build is modelled), the fuzzy
  `find`, `list`, `run_command`, printing, and the D-Bus, CLI and `main` layers.
- Scores are `f32` in the source and reals here: no rounding and no NaN (which would make the
  sort's `partial_cmp(...).unwrap()` panic); the natural logarithm is a parameter `ln`.
- `GramIndex.Freqs.Increase`, `GramIndex.Index.Insert`, `GramIndex.Index.InsertMany`: counts
  and the document counter are unbounded integers; the source adds `1.0` to `f32` values
  (lbr-server/src/text/index.rs:35, 81, 94), which stop growing at 2^24, and that saturation is
  not modelled.
- `Hex.Decode`: works on characters where `decode_to_slice` works on the UTF-8 bytes of the
  string. On ASCII input (every hex string) the two agree; on non-ASCII input success and
  failure still agree, but the error variant and the reported index are computed per character
  (a string of 63 characters and 64 bytes gives `OddLength` here, `InvalidHexCharacter` in the
  source, and the index counts characters, not bytes).
- `SearchEngine.SortHits`: the standard library's sort is modelled as an insertion sort; only
  its result (a descending permutation) is relied on, and ties may be ordered differently.
- Hash-map iteration order in the engine is not modelled: the merge and the collection are
  proved for every order, and loops over sets take ids in ascending order.
- `Text.Lower`: lower-cases ASCII letters only; `str::to_lowercase` also folds other scripts.
- The librarian-server text module is not part of this model; the lbr-server engine, fed a
  document's title, authors and keywords, stands in for it.
- `SrcLibrary` uses the legacy book record (32-byte hash, author and keyword sets, free-form
  extension), which is the one `src/library.rs` works with; `src/book.rs` is modelled on its own.
- The error after `get_hash` in `open`, `update_add` and `update` ("Document with hash … not
  found") cannot happen, since a returned hash is always a key (`SrcLibrary.GetHashReturnsKey`);
  the "Extension is not valid unicode" error cannot happen on strings of characters.
- `ServerLibrary.Library.NewId`, `LbrLibrary.Library.Insert`: the id counter is unbounded; the
  `usize` overflow of `self.last += 1` (librarian-server/src/library.rs:89,
  lbr-server/src/library.rs:57) is not modelled.
- `LbrLibrary.Library.Get`: indexing an unknown id panics in the source, so the id must be
  stored; `ServerLibrary.Library.Get` is `ServerLibrary.Lookup` on the documents.
- `LbrLibrary.Library.Remove`: uses the corrected engine removal (`SearchEngine.Indices.Purge`),
  so that the engine keeps holding exactly the stored documents (`LbrLibrary.SyncRemove`); the
  removal as written is `SearchEngine.Indices.Remove`, whose residue is shown in Findings.
- `LegacyBook.IsbnDigits`: `char::is_numeric` is a Unicode table (categories Nd, Nl, No); it is a
  parameter, constrained only to agree with the source on ASCII (`LegacyBook.AsciiNumeric`). The
  same filter in `get_info` (src/library.rs:292-298) is not modelled separately.
- Concurrency and the locking around the stores.

## Findings

| source | as written | input that shows it | evidently intended | confidence | as-written member | corrected member |
|---|---|---|---|---|---|---|
| src/library.rs:31-41 | an odd-length prefix is decoded with an `f` appended and the top bound's last byte is lowered by 15 before decoding, so the decode overwrites it; the scan then looks for names starting with the prefix followed by `f` | a library holding only the hash ab c0 00…, looked up with "abc": reported not found | the last decoded byte is lowered by 15 in the bottom bound only, so the scan covers every key whose name starts with the prefix | high, not executed | SrcLibrary.GetHashOddPrefixMisses | SrcLibrary.Library.GetHashCorrected |
| lbr-server/src/text/index.rs:97-102 | `remove` lowers the document's count of each gram by one, so a gram the document holds twice keeps it | insert document 0 titled "aaaa" (the gram "aaa" twice), remove document 0, search "aaa": document 0 is still scored | removal takes the document out of every gram whatever its count, so no query finds it again | high, not executed | SearchEngine.RemoveLeavesResidue | SearchEngine.PurgedNotFound |
