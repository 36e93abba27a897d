/** Unicode blocks as the detector sees them, and the normalization table that
    folds related blocks together before any grouping or comparison. */
module UnicodeBlocks {

  /** A `Character.UnicodeBlock`. Only the two blocks the detector names are
      spelled out; `Unassigned` stands for the `null` that
      `Character.UnicodeBlock.of` returns for a code point outside every block. */
  datatype Block = BasicLatin | Latin1Supplement | Other(name: string) | Unassigned

  /** NORMALIZATION_MAP: accented Latin counts as Latin. */
  const NormalizationMap: map<Block, Block> := map[Latin1Supplement := BasicLatin]

  /** A block's canonical block: the table's entry when there is one,
      otherwise the block itself. Total, and its results are fixed points. */
  function Normalize(b: Block): (r: Block)
    ensures b == Latin1Supplement ==> r == BasicLatin
    ensures b != Latin1Supplement ==> r == b
    ensures r != Latin1Supplement
  {
    if b in NormalizationMap then NormalizationMap[b] else b
  }
}
