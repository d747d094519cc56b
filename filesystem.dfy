/** The file system as the downloader sees it: a map from path to the
    bytes the file holds. A path outside the map does not exist. */
module FileSystem {
  import opened Common

  newtype byte = b: int | 0 <= b < 256

  type Bytes = seq<byte>

  type FS = map<string, Bytes>

  /** What a path holds, or nothing when it does not exist: the contents
      of a file once O_CREATE has opened it. */
  function Existing(fs: FS, path: string): (r: Bytes)
    ensures path in fs ==> r == fs[path]
    ensures path !in fs ==> r == []
  {
    if path in fs then fs[path] else []
  }

  /** The size os.Stat reports, or 0 when it fails because the file does
      not exist (`copied` stays 0 in downloadPart). */
  function SizeOrZero(fs: FS, path: string): (r: nat)
    ensures r == |Existing(fs, path)|
    ensures path !in fs ==> r == 0
  {
    if path in fs then |fs[path]| else 0
  }

  /** The bytes left in a file that held `before` after `data` is written
      from offset 0 through a descriptor opened without O_TRUNC. */
  function Overwrite(before: Bytes, data: Bytes): (after: Bytes)
    ensures |after| == if |before| > |data| then |before| else |data|
    ensures after[..|data|] == data
    ensures forall k :: |data| <= k < |before| ==> after[k] == before[k]
  {
    if |before| > |data| then data + before[|data|..] else data
  }

  /** `p` is `root` itself or lies below it. The empty path names no
      tree: os.RemoveAll("") removes nothing. */
  predicate InTree(p: string, root: string) {
    root != [] &&
    (p == root || (|root| < |p| && p[..|root|] == root && (root[|root| - 1] == '/' || p[|root|] == '/')))
  }

  /** os.RemoveAll(root): `root` and everything below it disappear; for the
      empty path nothing changes. */
  function RemoveAll(fs: FS, root: string): (r: FS)
    ensures forall p :: p in r <==> p in fs && !InTree(p, root)
    ensures forall p :: p in r ==> r[p] == fs[p]
    ensures root == [] ==> r == fs
  {
    map p | p in fs && !InTree(p, root) :: fs[p]
  }
}
