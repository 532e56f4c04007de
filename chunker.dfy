/** Cutting one document's extracted text into fixed windows, each recorded
    as an index entry `{id, filename, chunk}`. */
module Chunker {
  import opened Results
  import opened Text

  /** Window length and step of the chunking loop (the step equals the
      length, so windows tile the text without overlap). */
  const ChunkSize: nat := 1800

  /** One element of the in-memory index. */
  datatype Entry = Entry(id: string, filename: string, chunk: string)

  /** The id of the window that starts at `offset`: the file id, an
      underscore, and the offset in decimal. */
  function ChunkId(fileId: string, offset: nat): string
  {
    fileId + "_" + Dec(offset)
  }

  /** How many windows the loop produces for a text of length `n`. */
  function NumChunks(n: nat): nat
  {
    (n + ChunkSize - 1) / ChunkSize
  }

  /** NumChunks is the ceiling of n / 1800: window k exists exactly when it
      starts inside the text. */
  lemma NumChunksIsCeiling(n: nat, k: nat)
    ensures k < NumChunks(n) <==> k * ChunkSize < n
  {
  }

  /** The k-th window of `text`: from offset 1800k, at most 1800 characters. */
  function Window(text: string, k: nat): string
  {
    Slice(text, k * ChunkSize, k * ChunkSize + ChunkSize)
  }

  /** The entries the chunking loop pushes for one file, in push order. */
  function Chunks(fileId: string, filename: string, text: string): (cs: seq<Entry>)
    ensures |cs| == NumChunks(|text|)
  {
    seq(NumChunks(|text|), k requires 0 <= k =>
      Entry(ChunkId(fileId, k * ChunkSize), filename, Window(text, k)))
  }

  /** The texts of a sequence of entries, joined in order. */
  function Joined(es: seq<Entry>): string
  {
    if es == [] then [] else Joined(es[..|es| - 1]) + es[|es| - 1].chunk
  }

  /** Every entry of a file is the next window of its text: it starts at
      offset 1800k, ends at min(1800k + 1800, |text|), is non-empty and at
      most 1800 characters long, and carries the file's name. */
  lemma ChunkIsWindow(fileId: string, filename: string, text: string, k: nat)
    requires k < NumChunks(|text|)
    ensures var e := Chunks(fileId, filename, text)[k];
      && e.chunk == text[k * ChunkSize .. Min(k * ChunkSize + ChunkSize, |text|)]
      && 0 < |e.chunk| <= ChunkSize
      && e.id == ChunkId(fileId, k * ChunkSize)
      && e.filename == filename
  {
    NumChunksIsCeiling(|text|, k);
  }

  /** Empty text gives no entries. */
  lemma NoChunksForEmptyText(fileId: string, filename: string)
    ensures Chunks(fileId, filename, "") == []
  {
  }

  /** The first k windows, joined, are the first min(1800k, |text|)
      characters of the text. */
  lemma {:induction false} JoinedPrefix(fileId: string, filename: string, text: string, k: nat)
    requires k <= NumChunks(|text|)
    ensures Joined(Chunks(fileId, filename, text)[..k]) == text[..Min(k * ChunkSize, |text|)]
  {
    var cs := Chunks(fileId, filename, text);
    if k > 0 {
      JoinedPrefix(fileId, filename, text, k - 1);
      ChunkIsWindow(fileId, filename, text, k - 1);
      assert cs[..k][..k - 1] == cs[..k - 1];
      NumChunksIsCeiling(|text|, k - 1);
      assert text[..Min(k * ChunkSize, |text|)]
          == text[..(k - 1) * ChunkSize] + text[(k - 1) * ChunkSize .. Min(k * ChunkSize, |text|)];
    }
  }

  /** Joining a file's entries in push order gives back its text exactly:
      no gaps, no overlap. */
  lemma Reconstruction(fileId: string, filename: string, text: string)
    ensures Joined(Chunks(fileId, filename, text)) == text
  {
    var cs := Chunks(fileId, filename, text);
    JoinedPrefix(fileId, filename, text, |cs|);
    assert cs[..|cs|] == cs;
    if |cs| > 0 {
      NumChunksIsCeiling(|text|, |cs|);
    }
  }

  /** Appending `fileId + "_"` keeps distinct numerals distinct. */
  lemma ChunkIdInjective(fileId: string, a: nat, b: nat)
    ensures ChunkId(fileId, a) == ChunkId(fileId, b) ==> a == b
  {
    var p := fileId + "_";
    if ChunkId(fileId, a) == ChunkId(fileId, b) {
      assert (p + Dec(a))[|p|..] == Dec(a);
      assert (p + Dec(b))[|p|..] == Dec(b);
      DecInjective(a, b);
    }
  }

  /** Within one file the chunk ids are pairwise distinct. */
  lemma ChunkIdsDistinct(fileId: string, filename: string, text: string)
    ensures var cs := Chunks(fileId, filename, text);
      forall i, j :: 0 <= i < j < |cs| ==> cs[i].id != cs[j].id
  {
    var cs := Chunks(fileId, filename, text);
    forall i, j | 0 <= i < j < |cs| ensures cs[i].id != cs[j].id {
      ChunkIdInjective(fileId, i * ChunkSize, j * ChunkSize);
    }
  }
}
