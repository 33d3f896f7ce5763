/** How the trie of libcontainer/container_trie_tree.h turns characters into slot
    offsets and back. */
module TrieKeys {

  /** A signed 8-bit character. */
  type CChar = c: int | -128 <= c < 128

  const DICT_SIZE: nat := 95

  /** Bit 0x20 of a two's complement value. */
  predicate CaseBit(c: int) {
    (c / 32) % 2 == 1
  }

  /** TT_DICT_INDEX: clear bit 0x20, then convert to unsigned int. */
  function DictIndex(c: CChar): (i: nat)
    ensures 0 <= c ==> i <= 95
    ensures c < 0 ==> i > DICT_SIZE
  {
    var folded := if CaseBit(c) then c - 32 else c;
    if folded < 0 then folded + 0x1_0000_0000 else folded
  }

  /** TT_DICT_CHAR: set bit 0x20. */
  function DictChar(offset: nat): nat {
    if CaseBit(offset) then offset else offset + 32
  }

  /** The offsets that stored nodes can have. */
  predicate Offset(i: nat) {
    i < DICT_SIZE && !CaseBit(i)
  }

  type Path = seq<nat>

  predicate Offsets(path: Path) {
    forall i :: 0 <= i < |path| ==> Offset(path[i])
  }

  /** The characters that the slot array has room for. Index 95, of '_' and of DEL,
      passes the range test of the code and is one past the end of the array. */
  predicate InDictionary(c: CChar) {
    DictIndex(c) != DICT_SIZE
  }

  predicate KeyInDictionary(key: seq<CChar>) {
    forall i :: 0 <= i < |key| ==> InDictionary(key[i])
  }

  /** A character that find, insert and remove do not reject. */
  predicate Accepted(c: CChar) {
    DictIndex(c) < DICT_SIZE
  }

  predicate KeyAccepted(key: seq<CChar>) {
    forall i :: 0 <= i < |key| ==> Accepted(key[i])
  }

  /** The slot path of a key. */
  function Fold(key: seq<CChar>): (path: Path)
    ensures |path| == |key|
  {
    seq(|key|, i requires 0 <= i < |key| => DictIndex(key[i]))
  }

  lemma AcceptedOffset(c: CChar)
    requires Accepted(c)
    ensures 0 <= c && Offset(DictIndex(c))
  {
  }

  lemma FoldOffsets(key: seq<CChar>)
    requires KeyAccepted(key)
    ensures Offsets(Fold(key))
  {
    forall i | 0 <= i < |key| ensures Offset(Fold(key)[i]) { AcceptedOffset(key[i]); }
  }

  /** Two characters fall on one offset exactly when they differ at most in bit 0x20:
      the fold identifies the letters' two cases, and nothing beyond that bit. */
  lemma SameOffset(a: CChar, b: CChar)
    requires Accepted(a) && Accepted(b)
    ensures DictIndex(a) == DictIndex(b) <==> (a == b || (a == b + 32 && CaseBit(a)) || (b == a + 32 && CaseBit(b)))
  {
  }

  /** Reading an offset back and folding it again reaches the same offset. */
  lemma CharRoundTrip(offset: nat)
    requires Offset(offset)
    ensures DictChar(offset) < 128 && DictIndex(DictChar(offset)) == offset
    ensures CaseBit(DictChar(offset))
  {
  }

  /** The key that _TTNode_get_key reads off a path. */
  function Unfold(path: Path): (key: seq<CChar>)
    requires Offsets(path)
    ensures |key| == |path|
  {
    seq(|path|, i requires 0 <= i < |path| => ReadChar(path[i]))
  }

  function ReadChar(offset: nat): CChar
    requires Offset(offset)
  {
    DictChar(offset)
  }

  lemma UnfoldRoundTrip(path: Path)
    requires Offsets(path)
    ensures Fold(Unfold(path)) == path && KeyAccepted(Unfold(path))
  {
    forall i | 0 <= i < |path| ensures DictIndex(Unfold(path)[i]) == path[i] && Accepted(Unfold(path)[i]) {
      CharRoundTrip(path[i]);
    }
  }

  /** Folding a key and reading it back sets bit 0x20 in every character. */
  lemma FoldUnfold(key: seq<CChar>, i: nat)
    requires KeyAccepted(key) && i < |key|
    ensures Offsets(Fold(key))
    ensures Unfold(Fold(key))[i] == if CaseBit(key[i]) then key[i] else key[i] + 32
  {
    FoldOffsets(key);
  }
}
