/** The resource descriptor of actor/v2action/resource.go: one entry of an
    application payload, identified by its slash-separated path, with the
    hex SHA1 of its content, its size and its permission bits.
 */
module Resources {

  type uint8 = x: int | 0 <= x < 0x100

  type Bytes = seq<uint8>

  /** A hex-encoded content digest. SHA1 followed by hex formatting is not
      modelled; the one fact the packer relies on is that the text is never
      empty, so an empty expected hash never matches any content. */
  type HexDigest = s: string | |s| > 0 witness "0"

  /** SHA1 of the bytes, formatted as hex. */
  type Digest = Bytes -> HexDigest

  /** Go's `os.FileMode`, a 32-bit unsigned integer. */
  type FileMode = m: int | 0 <= m < 0x1_0000_0000

  /** 0755 (octal): the mode of every directory resource. */
  const DefaultFolderPermissions: FileMode := 0x1ED

  /** 0744 (octal): the mode of every file resource read from an archive. */
  const DefaultArchiveFilePermissions: FileMode := 0x1E4

  datatype Resource = Resource(filename: string, sha1: string, size: nat, mode: FileMode)

  /** The zero value of `Resource`: what a lookup returns on a miss. */
  const ZeroResource: Resource := Resource("", "", 0, 0)

  /** A Go slice, which is either nil or made (possibly empty). The
      distinction is visible to callers: the scanners return nil when they
      append nothing, and the conversion to the API type never does. */
  datatype Slice<T> = Nil | Slice(elems: seq<T>) {
    function Items(): seq<T> {
      match this
      case Nil => []
      case Slice(e) => e
    }
  }

  // ---------------------------------------------------------------------------
  // findInResources
  // ---------------------------------------------------------------------------

  /** findInResources: the first resource whose filename equals `path`
      exactly, or the zero resource when there is none. A miss is silent,
      never an error. */
  function Find(path: string, rs: seq<Resource>): (r: Resource)
    ensures (forall i | 0 <= i < |rs| :: rs[i].filename != path) ==> r == ZeroResource
    ensures forall i | 0 <= i < |rs| && rs[i].filename == path ::
              (forall j | 0 <= j < i :: rs[j].filename != path) ==> r == rs[i]
  {
    if |rs| == 0 then ZeroResource
    else if rs[0].filename == path then rs[0]
    else Find(path, rs[1..])
  }

  /** A lookup either finds a resource of that exact name or comes back with
      no hash, no size and mode 0. */
  lemma FindHitOrZero(path: string, rs: seq<Resource>)
    ensures (Find(path, rs) in rs && Find(path, rs).filename == path)
         || Find(path, rs) == ZeroResource
  {
  }

  /** Appending resources to the list never changes a lookup that already hits,
      nor one whose name the appended resources do not carry. */
  lemma {:induction false} FindAppend(path: string, rs: seq<Resource>, more: seq<Resource>)
    requires (exists i :: 0 <= i < |rs| && rs[i].filename == path)
          || (forall j | 0 <= j < |more| :: more[j].filename != path)
    ensures Find(path, rs + more) == Find(path, rs)
  {
    if |rs| == 0 {
      assert rs + more == more;
    } else {
      assert (rs + more)[1..] == rs[1..] + more;
      if rs[0].filename != path {
        if exists i :: 0 <= i < |rs| && rs[i].filename == path {
          var i :| 0 <= i < |rs| && rs[i].filename == path;
          assert rs[1..][i - 1].filename == path;
        }
        FindAppend(path, rs[1..], more);
      }
    }
  }

  // ---------------------------------------------------------------------------
  // actorToCCResources
  // ---------------------------------------------------------------------------

  /** The API-layer resource, which has the same fields. */
  datatype CCResource = CCResource(filename: string, sha1: string, size: nat, mode: FileMode)

  function ToCCResource(r: Resource): CCResource {
    CCResource(r.filename, r.sha1, r.size, r.mode)
  }

  function FromCCResource(c: CCResource): Resource {
    Resource(c.filename, c.sha1, c.size, c.mode)
  }

  /** actorToCCResources: converts each resource, in order, into a slice that
      is made up front and so is never nil, even for a nil input. */
  method ActorToCCResources(resources: Slice<Resource>) returns (api: Slice<CCResource>)
    ensures api.Slice?
    ensures |api.elems| == |resources.Items()|
    ensures forall i | 0 <= i < |api.elems| :: FromCCResource(api.elems[i]) == resources.Items()[i]
  {
    var items := resources.Items();
    var out: seq<CCResource> := [];
    var n := 0;
    while n < |items|
      invariant n <= |items|
      invariant |out| == n
      invariant forall i | 0 <= i < n :: FromCCResource(out[i]) == items[i]
    {
      out := out + [ToCCResource(items[n])];
      n := n + 1;
    }
    api := Slice(out);
  }
}
