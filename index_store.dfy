/** The index store: the `word_digests` table, one row per word digest holding
    the word's ciphertext and a running count (`update_frequency_db`,
    `clear_index`, `words_in_index`).

    The digest and the cipher are library calls (salted SHA-256 in hex, RSA
    PKCS#1 v1.5 encryption followed by Base64). They are kept abstract, as the
    three functions of a `Crypto` value, and the store assumes only what the
    program relies on: a digest is a function of the word (so repeated words
    meet in one row, and two words whose digests collide share that row), and
    decrypting an encryption gives the word back. */
module IndexStore {
  import opened Ranking
  import opened Tokenizer

  datatype Option<T> = None | Some(value: T)

  /** Hex digest, the `hash` column. */
  type Digest = string
  /** Base64 text of an RSA ciphertext, the `word` column. */
  type Ciphertext = string

  const WordHashSalt := "NaCl"

  datatype Crypto = Crypto(
    sha256Hex: string -> Digest,
    encrypt: string -> Ciphertext,
    decrypt: Ciphertext -> string)

  /** The one property of the cipher the store relies on. */
  ghost predicate RoundTrips(c: Crypto)
  {
    forall w :: c.decrypt(c.encrypt(w)) == w
  }

  /** The lookup key of a word: the digest of the salt followed by the word. */
  function WordHash(c: Crypto, w: string): Digest
  {
    c.sha256Hex(WordHashSalt + w)
  }

  /** A row of `word_digests`, less its key. */
  datatype Row = Row(ciphertext: Ciphertext, wordCount: nat)

  type Table = map<Digest, Row>

  /** Every row decrypts to a word whose key is the row's key. */
  ghost predicate WellFormed(c: Crypto, t: Table)
  {
    forall k :: k in t ==> WordHash(c, c.decrypt(t[k].ciphertext)) == k
  }

  /** One (word, count) pair of a batch: insert a row with count 0 unless one
      exists for the word's key, then add the count to that row. */
  function UpsertOne(c: Crypto, t: Table, e: WordCount): (t': Table)
    ensures t'.Keys == t.Keys + {WordHash(c, e.0)}
    ensures forall k :: k in t && k != WordHash(c, e.0) ==> t'[k] == t[k]
    ensures WordHash(c, e.0) in t ==>
      t'[WordHash(c, e.0)] == Row(t[WordHash(c, e.0)].ciphertext, t[WordHash(c, e.0)].wordCount + e.1)
    ensures WordHash(c, e.0) !in t ==> t'[WordHash(c, e.0)] == Row(c.encrypt(e.0), e.1)
  {
    var k := WordHash(c, e.0);
    var inserted := if k in t then t else t[k := Row(c.encrypt(e.0), 0)];
    inserted[k := inserted[k].(wordCount := inserted[k].wordCount + e.1)]
  }

  /** The table after a whole batch, pair by pair, in order: no row is
      removed, and every word of the batch ends up with a row. */
  function Upserted(c: Crypto, t: Table, batch: seq<WordCount>): (u: Table)
    ensures t.Keys <= u.Keys
    ensures forall i :: 0 <= i < |batch| ==> WordHash(c, batch[i].0) in u
    decreases |batch|
  {
    if batch == [] then t
    else
      var u := Upserted(c, UpsertOne(c, t, batch[0]), batch[1..]);
      assert forall i :: 1 <= i < |batch| ==> batch[i] == batch[1..][i - 1];
      u
  }

  /** The sum of the counts of the pairs of `batch` whose word has key `k`. */
  function KeySum(c: Crypto, batch: seq<WordCount>, k: Digest): (n: nat)
    ensures (forall i :: 0 <= i < |batch| ==> WordHash(c, batch[i].0) != k) ==> n == 0
  {
    if batch == [] then 0
    else (if WordHash(c, batch[0].0) == k then batch[0].1 else 0) + KeySum(c, batch[1..], k)
  }

  /** The first word of `batch` whose key is `k`, if any. */
  function FirstWithKey(c: Crypto, batch: seq<WordCount>, k: Digest): (r: Option<string>)
    ensures r.Some? <==> exists i :: 0 <= i < |batch| && WordHash(c, batch[i].0) == k
    ensures r.Some? ==> exists i :: 0 <= i < |batch| && batch[i].0 == r.value && WordHash(c, batch[i].0) == k &&
                          forall j :: 0 <= j < i ==> WordHash(c, batch[j].0) != k
  {
    if batch == [] then None
    else if WordHash(c, batch[0].0) == k then Some(batch[0].0)
    else
      var r := FirstWithKey(c, batch[1..], k);
      assert forall i :: 1 <= i < |batch| ==> batch[i] == batch[1..][i - 1];
      r
  }

  /** What a batch does to the row of key `k`: the row exists afterwards iff it
      existed or some word of the batch has key `k`; its count is the old count
      (0 for a new row) plus the counts of all those words; an existing row keeps
      its ciphertext and a new one holds the encryption of the first such word;
      a row no word of the batch maps to is unchanged. */
  lemma {:induction false} UpsertedRow(c: Crypto, t: Table, batch: seq<WordCount>, k: Digest)
    ensures k in Upserted(c, t, batch) <==> k in t || FirstWithKey(c, batch, k).Some?
    ensures k in Upserted(c, t, batch) ==>
      Upserted(c, t, batch)[k].wordCount == (if k in t then t[k].wordCount else 0) + KeySum(c, batch, k)
    ensures k in t ==> Upserted(c, t, batch)[k].ciphertext == t[k].ciphertext
    ensures k !in t && FirstWithKey(c, batch, k).Some? ==>
      Upserted(c, t, batch)[k].ciphertext == c.encrypt(FirstWithKey(c, batch, k).value)
    ensures k in t && FirstWithKey(c, batch, k).None? ==> Upserted(c, t, batch)[k] == t[k]
    decreases |batch|
  {
    if batch != [] {
      var t1 := UpsertOne(c, t, batch[0]);
      UpsertedRow(c, t1, batch[1..], k);
      assert forall i :: 1 <= i < |batch| ==> batch[i] == batch[1..][i - 1];
      if FirstWithKey(c, batch, k).None? {
        assert forall i :: 0 <= i < |batch[1..]| ==> WordHash(c, batch[1..][i].0) != k by {
          forall i | 0 <= i < |batch[1..]| ensures WordHash(c, batch[1..][i].0) != k {
            assert batch[1..][i] == batch[i + 1];
          }
        }
      }
    }
  }

  /** Two batches one after the other act as the single batch of both. */
  lemma {:induction false} UpsertedConcat(c: Crypto, t: Table, first: seq<WordCount>, second: seq<WordCount>)
    ensures Upserted(c, Upserted(c, t, first), second) == Upserted(c, t, first + second)
    decreases |first|
  {
    if first == [] {
      assert first + second == second;
    } else {
      assert (first + second)[0] == first[0];
      assert (first + second)[1..] == first[1..] + second;
      UpsertedConcat(c, UpsertOne(c, t, first[0]), first[1..], second);
    }
  }

  /** Rows written by upserts decrypt to a word of their own key. */
  lemma UpsertedKeepsWellFormed(c: Crypto, t: Table, batch: seq<WordCount>)
    requires RoundTrips(c) && WellFormed(c, t)
    ensures WellFormed(c, Upserted(c, t, batch))
  {
    var u := Upserted(c, t, batch);
    forall k | k in u
      ensures WordHash(c, c.decrypt(u[k].ciphertext)) == k
    {
      UpsertedRow(c, t, batch, k);
      if k !in t {
        var w := FirstWithKey(c, batch, k).value;
        assert c.decrypt(c.encrypt(w)) == w;
      }
    }
  }

  /** Two words with one key share one row: counted together, and listed under
      the first of them. */
  lemma CollidingWordsShareRow(c: Crypto, t: Table, first: WordCount, second: WordCount)
    requires RoundTrips(c)
    requires WordHash(c, first.0) == WordHash(c, second.0) && WordHash(c, first.0) !in t
    ensures var k := WordHash(c, first.0);
      var u := Upserted(c, t, [first, second]);
      && u.Keys == t.Keys + {k}
      && u[k].wordCount == first.1 + second.1
      && c.decrypt(u[k].ciphertext) == first.0
  {
    var k := WordHash(c, first.0);
    var u := Upserted(c, t, [first, second]);
    assert [first, second][1..] == [second] && [second][1..] == [];
    var once := UpsertOne(c, t, first);
    assert u == Upserted(c, once, [second]);
    assert Upserted(c, once, [second]) == Upserted(c, UpsertOne(c, once, second), []);
    assert c.decrypt(c.encrypt(first.0)) == first.0;
  }

  /** A word seen in two batches, with counts 2 and 5, ends with count 7 when
      it had no row before: the second batch adds to the row, it does not
      overwrite it. */
  lemma RepeatedWordAccumulates(c: Crypto, t: Table, w: string)
    requires WordHash(c, w) !in t
    ensures var u := Upserted(c, Upserted(c, t, [(w, 2)]), [(w, 5)]);
      WordHash(c, w) in u && u[WordHash(c, w)].wordCount == 7
  {
    UpsertedConcat(c, t, [(w, 2)], [(w, 5)]);
    UpsertedRow(c, t, [(w, 2), (w, 5)], WordHash(c, w));
    assert KeySum(c, [(w, 2), (w, 5)], WordHash(c, w)) == 7;
  }

  /** Each row of a listing of a well-formed table decrypts to a word of its key. */
  lemma ListedRowsDecrypt(c: Crypto, t: Table, s: seq<(Digest, Row)>)
    requires WellFormed(c, t) && ListsMap(s, t)
    ensures forall i :: 0 <= i < |s| ==>
      WordHash(c, c.decrypt(s[i].1.ciphertext)) == s[i].0
  {
  }

  function RowCount(e: (Digest, Row)): int
  {
    e.1.wordCount
  }

  /** The rows of a query result with their ciphertexts decrypted: one
      (word, count) pair per row, in the rows' order. */
  function Decrypted(c: Crypto, s: seq<(Digest, Row)>): (r: seq<WordCount>)
    ensures |r| == |s|
    ensures forall i :: 0 <= i < |r| ==> r[i].1 == s[i].1.wordCount
    ensures NonIncreasing(s, RowCount) ==> forall i, j :: 0 <= i < j < |r| ==> r[i].1 >= r[j].1
  {
    seq(|s|, i requires 0 <= i < |s| => (c.decrypt(s[i].1.ciphertext), s[i].1.wordCount))
  }

  /** `listing` is what `words_in_index` returns for table `t`: `selected` holds
      every row once, counts descending, and `listing` is those rows decrypted,
      each word hashing to its row's key. */
  ghost predicate IsScan(c: Crypto, t: Table, selected: seq<(Digest, Row)>, listing: seq<WordCount>)
  {
    && ListsMap(selected, t)
    && (forall i, j :: 0 <= i < j < |selected| ==> selected[i].1.wordCount >= selected[j].1.wordCount)
    && |listing| == |selected|
    && (forall i :: 0 <= i < |listing| ==>
          listing[i] == (c.decrypt(selected[i].1.ciphertext), selected[i].1.wordCount))
    && (forall i :: 0 <= i < |listing| ==>
          WordHash(c, listing[i].0) == selected[i].0)
    && (forall i, j :: 0 <= i < j < |listing| ==> listing[i].1 >= listing[j].1)
  }

  /** Decrypting a ranked listing of a well-formed table gives its scan. */
  lemma ScanOfRanking(c: Crypto, t: Table, ranked: seq<(Digest, Row)>)
    requires WellFormed(c, t) && ListsMap(ranked, t) && NonIncreasing(ranked, RowCount)
    ensures IsScan(c, t, ranked, Decrypted(c, ranked))
  {
    var listing := Decrypted(c, ranked);
    ListedRowsDecrypt(c, t, ranked);
    forall i, j | 0 <= i < j < |ranked|
      ensures ranked[i].1.wordCount >= ranked[j].1.wordCount
    {
      assert RowCount(ranked[i]) >= RowCount(ranked[j]);
    }
    forall i, j | 0 <= i < j < |listing|
      ensures listing[i].1 >= listing[j].1
    {
      assert RowCount(ranked[i]) >= RowCount(ranked[j]);
    }
  }

  /** The `word_digests` table. */
  class WordIndex {
    const crypto: Crypto
    var rows: Table

    ghost predicate Valid()
      reads this
    {
      RoundTrips(crypto) && WellFormed(crypto, rows)
    }

    /** An empty table, with the process's keys. */
    constructor (crypto: Crypto)
      requires RoundTrips(crypto)
      ensures Valid() && this.crypto == crypto && rows == map[]
    {
      this.crypto := crypto;
      rows := map[];
    }

    /** `update_frequency_db`: for each (word, count) pair, in order, an
        insert-if-absent with count 0 followed by an increment. */
    method UpsertBatch(batch: seq<WordCount>)
      requires Valid()
      modifies this
      ensures Valid()
      ensures rows == Upserted(crypto, old(rows), batch)
    {
      var i := 0;
      while i < |batch|
        invariant 0 <= i <= |batch|
        invariant Upserted(crypto, rows, batch[i..]) == Upserted(crypto, old(rows), batch)
      {
        var (word, count) := batch[i];
        var key := WordHash(crypto, word);
        if key !in rows {
          rows := rows[key := Row(crypto.encrypt(word), 0)];
        }
        rows := rows[key := rows[key].(wordCount := rows[key].wordCount + count)];
        assert batch[i..][1..] == batch[i + 1..];
        i := i + 1;
      }
      assert batch[i..] == [];
      UpsertedKeepsWellFormed(crypto, old(rows), batch);
    }

    /** `DELETE FROM word_digests`. */
    method ClearAll()
      requires Valid()
      modifies this
      ensures Valid() && rows == map[]
    {
      rows := map[];
    }

    /** `words_in_index`: every row once, counts descending, each ciphertext
        decrypted. `selected` holds the rows as the query returns them, keys
        included; rows with equal counts come in no particular order. */
    method ScanAll() returns (listing: seq<WordCount>, selected: seq<(Digest, Row)>)
      requires Valid()
      ensures IsScan(crypto, rows, selected, listing)
    {
      var fetched := Entries(rows);
      var ranked := SortDesc(fetched, RowCount);
      SortingKeepsListing(fetched, rows, RowCount);
      listing := Decrypted(crypto, ranked);
      selected := ranked;
      ScanOfRanking(crypto, rows, ranked);
    }

    /** `clear_index`: delete every row, then list the (now empty) index. */
    method ClearIndex() returns (listing: seq<WordCount>)
      requires Valid()
      modifies this
      ensures Valid() && rows == map[] && listing == []
    {
      ClearAll();
      var selected;
      listing, selected := ScanAll();
    }
  }

  /** The write path of `tag_cloud`: the table of `text` is computed and added
      to the index; a text without words leaves the index as it was. */
  method IndexText(index: WordIndex, text: string) returns (tags: seq<WordCount>)
    requires index.Valid()
    modifies index
    ensures index.Valid()
    ensures IsTopTable(text, tags)
    ensures index.rows == Upserted(index.crypto, old(index.rows), tags)
    ensures Words(text) == [] ==> index.rows == old(index.rows)
  {
    tags := BuildWordFrequencies(text);
    index.UpsertBatch(tags);
    if Words(text) == [] {
      assert Vocabulary(text) == {};
    }
  }
}
