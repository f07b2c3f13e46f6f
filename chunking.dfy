/** Splitting the address list into the slices sent to one whois call each:
    `term_ips[i:i+CHUNK_SIZE]` for `i in range(0, len(term_ips), CHUNK_SIZE)`. */
module Chunking {

  /** The most addresses one whois request carries. */
  const CHUNK_SIZE: nat := 100

  function Min(a: int, b: int): int {
    if a <= b then a else b
  }

  /** Python's `s[i:j]` for `0 <= i`: both ends are clamped to the length. */
  function Slice<T>(s: seq<T>, i: nat, j: nat): (r: seq<T>)
    ensures i <= j && j <= |s| ==> r == s[i..j]
    ensures i < |s| <= j ==> r == s[i..]
    ensures |s| <= i || j <= i ==> r == []
  {
    if |s| <= i then [] else if j <= i then [] else s[i..Min(j, |s|)]
  }

  /** The chunks that start at offsets `i`, `i + CHUNK_SIZE`, ... below `|s|`. */
  function ChunksFrom<T>(s: seq<T>, i: nat): seq<seq<T>>
    decreases |s| - i
  {
    if i >= |s| then [] else [Slice(s, i, i + CHUNK_SIZE)] + ChunksFrom(s, i + CHUNK_SIZE)
  }

  function Chunks<T>(s: seq<T>): seq<seq<T>> {
    ChunksFrom(s, 0)
  }

  function Flatten<T>(ss: seq<seq<T>>): seq<T> {
    if ss == [] then [] else ss[0] + Flatten(ss[1..])
  }

  /** The shape of the chunks from offset `i` on. */
  lemma {:induction false} ChunksFromShape<T>(s: seq<T>, i: nat)
    requires i <= |s|
    ensures |ChunksFrom(s, i)| == (|s| - i + CHUNK_SIZE - 1) / CHUNK_SIZE
    ensures forall k :: 0 <= k < |ChunksFrom(s, i)| ==> 0 < |ChunksFrom(s, i)[k]| <= CHUNK_SIZE
    ensures forall k :: 0 <= k < |ChunksFrom(s, i)| - 1 ==> |ChunksFrom(s, i)[k]| == CHUNK_SIZE
    ensures Flatten(ChunksFrom(s, i)) == s[i..]
    decreases |s| - i
  {
    if i < |s| {
      var c := ChunksFrom(s, i);
      if i + CHUNK_SIZE < |s| {
        ChunksFromShape(s, i + CHUNK_SIZE);
        assert c[1..] == ChunksFrom(s, i + CHUNK_SIZE);
        assert s[i..] == s[i..i + CHUNK_SIZE] + s[i + CHUNK_SIZE..];
      } else {
        assert ChunksFrom(s, i + CHUNK_SIZE) == [];
        assert Slice(s, i, i + CHUNK_SIZE) == s[i..|s|] == s[i..];
        assert c == [s[i..]];
        assert Flatten(c) == s[i..] + Flatten([]);
      }
    }
  }

  /** `ceil(N / CHUNK_SIZE)` chunks, none empty and none longer than
      CHUNK_SIZE, all but the last exactly CHUNK_SIZE long, which concatenate
      back to the input; no chunk at all (so no whois call) for no address. */
  lemma ChunksShape<T>(s: seq<T>)
    ensures |Chunks(s)| == (|s| + CHUNK_SIZE - 1) / CHUNK_SIZE
    ensures forall k :: 0 <= k < |Chunks(s)| ==> 0 < |Chunks(s)[k]| <= CHUNK_SIZE
    ensures forall k :: 0 <= k < |Chunks(s)| - 1 ==> |Chunks(s)[k]| == CHUNK_SIZE
    ensures Flatten(Chunks(s)) == s
    ensures Chunks(s) == [] <==> s == []
  {
    ChunksFromShape(s, 0);
    assert s[0..] == s;
  }
}
