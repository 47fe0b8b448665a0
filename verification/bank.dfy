/** The word bank: candidate words filed by length.  The fill engine reads a
    bucket (falling back to an empty list when the length has none), drops
    every entry with a placed word's text from its bucket, and appends the
    words it clears during a repair with a fixed score. */
module WordBank {
  import opened Lines

  /** A candidate word and its score. */
  datatype Entry = Entry(text: string, score: int)

  /** Word length -> candidates of that length, in bank order. */
  type Bank = map<nat, seq<Entry>>

  /** The score a word cleared by the repair step is filed back with. */
  const RECYCLE_SCORE: int := 50

  /** Every entry is filed under the length of its text. */
  predicate WellFormed(bank: Bank)
  {
    forall k, i :: k in bank && 0 <= i < |bank[k]| ==> |bank[k][i].text| == k
  }

  /** No entry's text contains a blocked cell, so writing one into the grid
      never creates or removes a block. */
  predicate BlockFree(bank: Bank)
  {
    forall k, i :: k in bank && 0 <= i < |bank[k]| ==> BLOCK !in bank[k][i].text
  }

  /** The bucket for length k, or the empty list when there is none. */
  function Bucket(bank: Bank, k: nat): (b: seq<Entry>)
    ensures k !in bank ==> b == []
    ensures WellFormed(bank) ==> forall i :: 0 <= i < |b| ==> |b[i].text| == k
    ensures BlockFree(bank) ==> forall i :: 0 <= i < |b| ==> BLOCK !in b[i].text
  {
    if k in bank then bank[k] else []
  }

  /** The bank after the bucket for length k was put in the order `list`, a
      reordering of it (the shuffle works on the bucket itself; a missing
      bucket stays missing, its reordering being empty). */
  function Reordered(bank: Bank, k: nat, list: seq<Entry>): (b: Bank)
    requires multiset(list) == multiset(Bucket(bank, k))
    ensures b.Keys == bank.Keys
    ensures Bucket(b, k) == list
    ensures forall j :: j != k ==> Bucket(b, j) == Bucket(bank, j)
    ensures WellFormed(bank) ==> WellFormed(b)
    ensures BlockFree(bank) ==> BlockFree(b)
  {
    forall i | 0 <= i < |list| ensures list[i] in Bucket(bank, k) {
      assert list[i] in multiset(list);
    }
    if k in bank then bank[k := list] else bank
  }

  /** The entries of bucket whose text differs from text, in order. */
  function WithoutText(bucket: seq<Entry>, text: string): (r: seq<Entry>)
    ensures forall i :: 0 <= i < |r| ==> r[i].text != text && r[i] in bucket
    ensures forall e :: multiset(r)[e] == if e.text == text then 0 else multiset(bucket)[e]
  {
    if bucket == [] then []
    else
      assert bucket == [bucket[0]] + bucket[1..];
      (if bucket[0].text != text then [bucket[0]] else []) + WithoutText(bucket[1..], text)
  }

  /** The bank after a word was placed: its length's bucket loses every entry
      with that text, and no other bucket changes. */
  function Withdraw(bank: Bank, text: string): (b: Bank)
    requires |text| in bank
    ensures b.Keys == bank.Keys
    ensures forall i :: 0 <= i < |b[|text|]| ==> b[|text|][i].text != text
    ensures forall e: Entry :: e.text != text ==> multiset(b[|text|])[e] == multiset(bank[|text|])[e]
    ensures forall k :: k in bank && k != |text| ==> b[k] == bank[k]
    ensures WellFormed(bank) ==> WellFormed(b)
    ensures BlockFree(bank) ==> BlockFree(b)
  {
    bank[|text| := WithoutText(bank[|text|], text)]
  }

  /** The entries that recycling the cleared words files under length k: each
      cleared word of that length, in order, with the recycle score. */
  function RecycledAt(cleared: seq<string>, k: nat): (r: seq<Entry>)
    ensures |r| <= |cleared|
    ensures forall i :: 0 <= i < |r| ==> |r[i].text| == k && r[i].score == RECYCLE_SCORE
    ensures forall i :: 0 <= i < |r| ==> r[i].text in cleared
  {
    if cleared == [] then []
    else
      var w := cleared[|cleared| - 1];
      RecycledAt(cleared[..|cleared| - 1], k) + (if |w| == k then [Entry(w, RECYCLE_SCORE)] else [])
  }

  /** Recycling one more word extends exactly its own length's entries. */
  lemma RecycledAtSnoc(cleared: seq<string>, w: string, k: nat)
    ensures RecycledAt(cleared + [w], k) ==
      RecycledAt(cleared, k) + (if |w| == k then [Entry(w, RECYCLE_SCORE)] else [])
  {
    assert (cleared + [w])[..|cleared|] == cleared;
  }

  /** No string of the list holds a blocked cell. */
  predicate NoBlockIn(words: seq<string>)
  {
    forall i :: 0 <= i < |words| ==> BLOCK !in words[i]
  }

  /** Adding a string without a block keeps a list block free. */
  lemma NoBlockInSnoc(words: seq<string>, w: string)
    requires NoBlockIn(words) && BLOCK !in w
    ensures NoBlockIn(words + [w])
  {
    assert forall i :: 0 <= i < |words| ==> (words + [w])[i] == words[i];
  }

  /** newBank is bank with every cleared string filed, in order, at the end
      of its length's bucket with the recycle score; no bucket is added. */
  predicate RecycledInto(bank: Bank, newBank: Bank, cleared: seq<string>)
  {
    newBank.Keys == bank.Keys && forall k :: k in bank ==> newBank[k] == bank[k] + RecycledAt(cleared, k)
  }

  /** Appending one more cleared string to its (existing) bucket files it
      after the ones filed before. */
  lemma RecycleOne(bank: Bank, newBank: Bank, cleared: seq<string>, w: string)
    requires RecycledInto(bank, newBank, cleared) && |w| in newBank
    ensures RecycledInto(bank, newBank[|w| := newBank[|w|] + [Entry(w, RECYCLE_SCORE)]], cleared + [w])
  {
    var e := Entry(w, RECYCLE_SCORE);
    var extended := newBank[|w| := newBank[|w|] + [e]];
    forall k | k in bank
      ensures extended[k] == bank[k] + RecycledAt(cleared + [w], k)
    {
      RecycledAtSnoc(cleared, w, k);
      if k == |w| {
        assert extended[k] == (bank[k] + RecycledAt(cleared, k)) + [e];
      }
    }
  }

  /** Filing cleared strings keeps a bank well formed and, when no cleared
      string holds a block, block free. */
  lemma {:induction false} RecycleKeepsInvariants(bank: Bank, recycled: Bank, cleared: seq<string>)
    requires RecycledInto(bank, recycled, cleared)
    requires NoBlockIn(cleared)
    ensures WellFormed(bank) ==> WellFormed(recycled)
    ensures BlockFree(bank) ==> BlockFree(recycled)
  {
    forall k, i | k in recycled && bank[k] <= recycled[k] && |bank[k]| <= i < |recycled[k]|
      ensures |recycled[k][i].text| == k && recycled[k][i].text in cleared
    {
      assert recycled[k][i] == RecycledAt(cleared, k)[i - |bank[k]|];
    }
  }

  /** The words of the list with length k, in order. */
  function OfLength(words: seq<string>, k: nat): (r: seq<string>)
    ensures |r| <= |words|
    ensures forall i :: 0 <= i < |r| ==> |r[i]| == k
    ensures r == [] <==> forall i :: 0 <= i < |words| ==> |words[i]| != k
  {
    if words == [] then []
    else
      var w := words[|words| - 1];
      OfLength(words[..|words| - 1], k) + (if |w| == k then [w] else [])
  }

  /** A word of length k occurs among the words of length k exactly as often
      as in the whole list; a word of any other length does not occur. */
  lemma {:induction false} OfLengthCounts(words: seq<string>, k: nat, w: string)
    ensures multiset(OfLength(words, k))[w] == if |w| == k then multiset(words)[w] else 0
  {
    if words != [] {
      var last := words[|words| - 1];
      OfLengthCounts(words[..|words| - 1], k, w);
      assert words == words[..|words| - 1] + [last];
    }
  }

  /** Indexing one more word extends exactly its own length's bucket. */
  lemma OfLengthSnoc(words: seq<string>, w: string, k: nat)
    ensures OfLength(words + [w], k) == OfLength(words, k) + (if |w| == k then [w] else [])
  {
    assert (words + [w])[..|words|] == words;
  }

  /** The length index of a word list: one bucket for each length that
      occurs, holding that length's words in list order. */
  method BuildDictionary(words: seq<string>) returns (d: map<nat, seq<string>>)
    ensures forall k :: k in d <==> exists i :: 0 <= i < |words| && |words[i]| == k
    ensures forall k :: k in d ==> d[k] == OfLength(words, k)
  {
    d := map[];
    for n := 0 to |words|
      invariant forall k :: k in d <==> OfLength(words[..n], k) != []
      invariant forall k :: k in d ==> d[k] == OfLength(words[..n], k)
    {
      var word := words[n];
      var length := |word|;
      if length !in d {
        d := d[length := []];
      }
      d := d[length := d[length] + [word]];
      assert words[..n + 1] == words[..n] + [word];
      forall k ensures OfLength(words[..n + 1], k) == OfLength(words[..n], k) + (if length == k then [word] else []) {
        OfLengthSnoc(words[..n], word, k);
      }
    }
    assert words[..|words|] == words;
    forall k ensures OfLength(words, k) != [] <==> exists i :: 0 <= i < |words| && |words[i]| == k {
    }
  }

  /** No bucket of the length index is empty, and every word of the list is
      filed in its length's bucket as often as it occurs in the list. */
  lemma LengthIndexComplete(words: seq<string>, d: map<nat, seq<string>>)
    requires forall k :: k in d <==> exists i :: 0 <= i < |words| && |words[i]| == k
    requires forall k :: k in d ==> d[k] == OfLength(words, k)
    ensures forall k :: k in d ==> |d[k]| > 0
    ensures forall i :: 0 <= i < |words| ==> |words[i]| in d && multiset(d[|words[i]|])[words[i]] == multiset(words)[words[i]]
  {
    forall i | 0 <= i < |words|
      ensures |words[i]| in d && multiset(d[|words[i]|])[words[i]] == multiset(words)[words[i]]
    {
      OfLengthCounts(words, |words[i]|, words[i]);
    }

  }
}
