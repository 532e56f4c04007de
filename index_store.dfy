/** The module-level `indexDB` array: an append-only list of entries that the
    sync handler pushes onto and the chat handler scans. */
module IndexStore {
  import opened Results
  import opened Text
  import opened Chunker

  class Index {
    /** The entries in push order; never deduplicated, never removed. */
    var entries: seq<Entry>

    /** A fresh process starts with an empty index. */
    constructor ()
      ensures entries == []
    {
      entries := [];
    }

    /** The chunking loop for one file: steps `i` over 0, 1800, 3600, ...
        while it is inside the text and pushes the window starting at `i`. */
    method IndexText(fileId: string, filename: string, text: string)
      modifies this
      ensures entries == old(entries) + Chunks(fileId, filename, text)
    {
      ghost var cs := Chunks(fileId, filename, text);
      var i: nat := 0;
      ghost var k: nat := 0;
      while i < |text|
        invariant i == k * ChunkSize && k <= |cs|
        invariant entries == old(entries) + cs[..k]
      {
        NumChunksIsCeiling(|text|, k);
        var chunk := Slice(text, i, i + 1800);
        entries := entries + [Entry(ChunkId(fileId, i), filename, chunk)];
        assert cs[..k + 1] == cs[..k] + [cs[k]];
        i := i + 1800;
        k := k + 1;
      }
      NumChunksIsCeiling(|text|, k);
      assert cs[..k] == cs;
    }
  }
}
