# Word-frequency index, modelled in Dafny

The program fetches a web page and splits its text into words. It counts the
words and keeps the 100 most frequent as a tag cloud. It adds those counts to
a table, `word_digests`, in the database. A row of that table is keyed by a
salted SHA-256 digest of a word, holds the word RSA-encrypted, and keeps a
running count. The table can be listed, most frequent first, or cleared.

This project models that core from `main.py` in three modules:

- `Ranking` (`ranking.dfy`) covers listing and ordering.
  - `Entries` lists a dictionary's entries in an order the caller cannot rely on.
  - `SortDesc` is a stable sort by descending count.
  - Both halves of the program rank this way: `sorted(..., reverse=True)` on a
    dictionary's items, and `ORDER BY word_count DESC` on a table scan.
  - The model says nothing about the order of equal counts.
- `Tokenizer` (`tokenizer.dfy`) is `build_word_frequencies`.
  - `Words` is the reference definition of the regex scan: maximal runs of ASCII
    letters, lower-cased.
  - `CountWords` is the counting loop, proved against `Words`.
  - `TopCounts` is the sort and the cut to `MaxWords`.
  - `IsTopTable` states what the result must be.
- `IndexStore` (`index_store.dfy`) is the table.
  - `UpsertOne` and `Upserted` are the reference definitions of the
    insert-if-absent followed by an increment.
  - Class `WordIndex` holds the table as a map from digest to row. Its methods
    are the batch update, the delete-all and the ordered, decrypted scan.
  - The digest, the cipher and its inverse are the three functions of a
    `Crypto` value. Only two facts are assumed about them: the digest is a
    function of the word, and decryption inverts encryption (`RoundTrips`).
  - Digest collisions are allowed: colliding words share one row.

## Model

| member | source | states |
|---|---|---|
| Ranking.Entries | main.py:68 | the entries of a dictionary, listed once each in an arbitrary order (`dict.items()`): `ListsMap` |
| Ranking.SortDesc | main.py:68 | `sorted(..., key=count, reverse=True)`: the result is a permutation of the input with counts never increasing |
| Ranking.InsertKeepsOrder | main.py:68 | inserting one element into a sequence sorted by descending key keeps it sorted |
| Ranking.SortingKeepsListing | main.py:68 | sorting a listing of a dictionary still lists every entry exactly once |
| Tokenizer.LowerChar | main.py:64 | `.lower()` on one character: a letter stays a letter and becomes lower-case; anything but a capital is unchanged |
| Tokenizer.Lower | main.py:64 | `.lower()` on a match: same length, letters lower-cased, every other character unchanged |
| Tokenizer.LetterRunLength | main.py:36 | the regex match at a letter is the longest run of letters there: every character before the end is a letter, the next one is not |
| Tokenizer.Words | main.py:63-64 | every word the scan yields is a non-empty run of lower-case ASCII letters |
| Tokenizer.RunStartsWords | main.py:63-64 | a maximal letter run at a position is the next word, lower-cased, and scanning resumes after it |
| Tokenizer.SeparatorStartsWords | main.py:63 | a non-letter starts no word |
| Tokenizer.CountWords | main.py:61-65 | the dictionary's keys are exactly the distinct words of the text, and each value is that word's number of occurrences |
| Tokenizer.TopCounts | main.py:68 | the result has min(100, #keys) entries from the dictionary with their counts, words distinct, counts non-increasing; any word left out counts no more than the last one kept |
| Tokenizer.TopOfRanking | main.py:68 | the first `MaxWords` entries of a descending listing of the dictionary form its top table |
| Tokenizer.LeftOutIsNoMoreFrequent | main.py:68 | a word cut off by `[:MAX_WORDS]` has a count no greater than the smallest count kept, and the cut was full |
| Tokenizer.BuildWordFrequencies | main.py:60-68 | result length is min(100, #distinct words); each entry is a lower-case ASCII word with its exact count, at least 1; words distinct; counts non-increasing; words left out count no more than the last kept; a text without letters gives `[]` |
| Tokenizer.NoLettersNoWords | main.py:63 | a text without ASCII letters has no words |
| Tokenizer.RunStopsAtSeparator | main.py:36 | a match cannot run past a non-letter: the letter run at the front of a text is unchanged by appending a separator and anything after it |
| Tokenizer.SeparatorSplitsWords | main.py:63 | a non-letter between two texts splits them: the words of the whole are the words of the left then the words of the right |
| Tokenizer.WordsIgnoreCase | main.py:64 | lower-casing the text first does not change its words (`re.IGNORECASE` with `.lower()`) |
| Tokenizer.WordAlone | main.py:64 | a lower-case word on its own is scanned as exactly that word |
| Tokenizer.SentenceRoundTrip | main.py:63-64 | joining words with blanks and scanning the result gives the same words back |
| Tokenizer.ExampleTable | main.py:60-68 | a text whose words are cat dog cat bird cat dog has the single table [(cat, 3), (dog, 2), (bird, 1)] |
| Tokenizer.TableOfThree | main.py:68 | three words counted 3, 2 and 1 can only be ranked as (3, 2, 1) |
| Tokenizer.TopOfThree | main.py:68 | the ranked prefix of a dictionary of three words counted 3, 2 and 1 is exactly [(cat, 3), (dog, 2), (bird, 1)] |
| Tokenizer.RankedThree | main.py:68 | three distinct entries with counts 3, 2 and 1, in non-increasing order, have exactly one arrangement |
| Tokenizer.ExampleSentence | main.py:63-64 | the blank-joined sentence "cat dog cat bird cat dog", for any three words, scans back to its six words |
| IndexStore.WordHash | main.py:93-97 | `hash`: the key of a word is the hex SHA-256 digest of the salt `"NaCl"` followed by the word, so equal words always meet in one row |
| IndexStore.UpsertOne | main.py:78-90 | one pair: the row of the word's digest is created with the word's ciphertext if absent; an existing row keeps its ciphertext; the count is added; all other rows are unchanged |
| IndexStore.Upserted | main.py:76-90 | the loop of `update_frequency_db` as a function of the old table and the batch: no row is ever removed, and every word of the batch ends up with a row |
| IndexStore.KeySum | main.py:88-90 | the counts added to a digest are 0 when no word of the batch has that digest |
| IndexStore.FirstWithKey | main.py:82-86 | the first word of a batch with a given digest, and whether there is one |
| IndexStore.UpsertedRow | main.py:76-90 | after a batch, a row exists iff it existed or some word maps to it; its count is the old count (0 if new) plus the sum of the counts of all words mapping to it; an existing ciphertext is never replaced; a new row holds the first such word's ciphertext; untouched rows are unchanged and none is removed |
| IndexStore.UpsertedConcat | main.py:76-90 | applying two batches in turn equals applying their concatenation |
| IndexStore.UpsertedKeepsWellFormed | main.py:78-86 | after a batch every row still decrypts to a word whose digest is the row's key |
| IndexStore.CollidingWordsShareRow | main.py:78-90 | two words with the same digest share one new row, which counts both and decrypts to the first |
| IndexStore.RepeatedWordAccumulates | main.py:82-90 | a word indexed twice with counts 2 and 5 ends with count 7: the second batch adds to its row |
| IndexStore.Decrypted | main.py:150 | the list comprehension over the fetched rows: one (word, count) pair per row in the rows' order, counts carried over, so rows ordered by count give pairs ordered by count |
| IndexStore.ScanOfRanking | main.py:149-150 | decrypting a descending listing of a well-formed table gives every row once, ordered by count, each decrypted word hashing to its row's key |
| IndexStore.WordIndex.constructor | main.py:43-44 | the key pair is loaded once per process (`PUB_KEY`, `PRIV_KEY`) and must round-trip; the table starts empty |
| IndexStore.WordIndex.UpsertBatch | main.py:71-91 | `update_frequency_db`: the new table is `Upserted(old table, batch)` and stays well-formed |
| IndexStore.WordIndex.ClearAll | main.py:141 | `DELETE FROM word_digests` leaves the table empty |
| IndexStore.WordIndex.ScanAll | main.py:146-150 | `words_in_index`: lists every row exactly once, counts non-increasing; each entry is the row's decrypted word and count, and that word hashes to the row's key |
| IndexStore.WordIndex.ClearIndex | main.py:137-143 | `clear_index`: the table is empty and the listing that follows is `[]` |
| IndexStore.IndexText | main.py:126-128 | the text's top table is computed and added to the index; a text without words leaves the index unchanged |

## Left out

- Database and web plumbing are left out. This covers `connect_to_cloudsql`, the MySQL driver, `db.commit`, the Flask routes, Jinja rendering and the error handler (main.py:46-58, 117-164). The table is a map held by `WordIndex`, and a batch is applied as a whole.
- `get_raw_text_from_url` (main.py:107-112) is an HTTP fetch followed by HTML stripping. The text is a parameter of `IndexText` and `BuildWordFrequencies` instead.
- `font_size` (main.py:114-115) is left out: it takes a floating-point square root and truncates it.
- The internals of `hash`, `encrypt` and `decrypt` are left out: SHA-256 (FIPS 180-4), RSAES-PKCS1-v1_5 (section 7.2 of RFC 8017) and Base64 (section 4 of RFC 4648). They are the abstract functions of `Crypto`, with the round trip as the only assumed fact. The salt `"NaCl"` is kept.
- `decrypt` is a total function in the model. The decryption error on a row the program did not write cannot arise, because `Valid()` requires every row to decrypt to a word whose digest is the row's key, as every row an upsert writes does.
- Races between concurrent requests are left out. Two requests can interleave the `INSERT ... WHERE NOT EXISTS` and the `UPDATE` (main.py:82-90). Only sequential batches are modelled.
- Unicode matching of the regex is left out. Words are ASCII letters only, and the redundant `(?![0-9])` look-ahead is dropped.
- Tie order is left out.
  - Entries with equal counts come out in an unspecified order, both from `sorted` over a Python 2 dictionary (main.py:68) and from `ORDER BY word_count DESC` (main.py:149).
  - `sorted` is stable, but a Python 2 dictionary is not iterated in insertion order, so the code fixes no order for equal counts. No member states an order among equal counts.
- Lower-casing: the per-match `.lower()` is modelled as lower-casing each letter run. Non-ASCII case mappings of `str.lower()` never apply, because runs contain only ASCII letters.
- Randomised padding is left out. RSAES-PKCS1-v1_5 pads each message with fresh random bytes, so encrypting one word twice gives two different ciphertexts. The model's `encrypt` is a function of the word. Where a contract says a new row holds `encrypt(word)`, read "an encryption of that word". The scan and `WellFormed` speak only of what a row decrypts to. One lemma does equate ciphertexts from separate encryptions; see the next line.
- IndexStore.UpsertedConcat: the two tables it equates agree on ciphertexts only because the model's `encrypt` is a function. In the program, two runs make separate `rsa.encrypt` calls (main.py:79, 100) with fresh random padding. Their tables agree on keys and counts, and each row decrypts to the same word, but new rows hold different ciphertexts.
- IndexStore.WordIndex.UpsertBatch: words too long to encrypt are treated as encryptable. `rsa.encrypt` raises an overflow error when the message is longer than the key's size minus 11 bytes. main.py:79 encrypts every word of the batch, even when its row exists. So one overlong letter run among the top 100 aborts `update_frequency_db` before `db.commit()` (main.py:91), and none of that batch is stored. The model stores the whole batch.
- Persistence is left out. The real table outlives the process and starts in whatever state earlier requests left it. `WordIndex.constructor` starts from an empty table, but every contract of `UpsertBatch`, `ScanAll`, `ClearIndex` and `IndexText` holds from any table that satisfies `Valid()`.
