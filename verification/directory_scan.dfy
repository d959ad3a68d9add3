/** GatherDirectoryResources of actor/v2action/resource.go, which describes
    every path a directory walk visits, with the fingerprinting rule of
    `Scan.Fingerprint`.
 */
module DirectoryScan {
  import opened Errors
  import opened Strings
  import opened Resources
  import opened Sources
  import Scan

  // ---------------------------------------------------------------------------
  // GatherDirectoryResources
  // ---------------------------------------------------------------------------

  /** Whether a visited path is the walk root, which is not described: its
      relative path is exactly ".". */
  predicate IsRoot(item: WalkItem) {
    item.relPath == "."
  }

  /** A visited path the callback accepts: the walk reported no error for it,
      and it is the root, a directory, or a file that opens and reads to its
      end. The walk error is checked before the root is skipped. */
  predicate Walkable(item: WalkItem) {
    && item.visit.Visited?
    && (IsRoot(item) || item.visit.isDir || (item.visit.stream.Opened? && item.visit.stream.read.Complete?))
  }

  /** The descriptor of a visited path: slash-normalised relative path, and
      for a file the normalised on-disk mode (`fixMode`) and its stat size. */
  function WalkedResource(item: WalkItem, sep: char, fixMode: FileMode -> FileMode, digest: Digest): Resource
    requires Walkable(item) && !IsRoot(item)
  {
    var v := item.visit;
    var content := if v.isDir then [] else v.stream.read.bytes;
    Scan.Fingerprint(ToSlash(item.relPath, sep), v.isDir, fixMode(v.mode), v.size, content, digest)
  }

  /** The resources an accepted path contributes: none for the root, its
      descriptor for any other path. */
  function Described(item: WalkItem, sep: char, fixMode: FileMode -> FileMode, digest: Digest): seq<Resource>
    requires Walkable(item)
  {
    if IsRoot(item) then [] else [WalkedResource(item, sep, fixMode, digest)]
  }

  /** No accepted file's slash-form relative path ends in '/'. A relative
      path computed by the walk never ends in a separator, so this holds of
      every real walk. */
  predicate FileNamesWithoutTrailingSlash(walk: seq<WalkItem>, sep: char) {
    forall i | 0 <= i < |walk| && Walkable(walk[i]) && !IsRoot(walk[i]) && !walk[i].visit.isDir ::
      !EndsWithSlash(ToSlash(walk[i].relPath, sep))
  }

  /** Every accepted file's stat size is the length of its content. The
      scan records the stat size, while the packer copies the content, so
      the two sizes agree only under this condition. */
  predicate SizesMatchContent(walk: seq<WalkItem>) {
    forall i | 0 <= i < |walk| && Walkable(walk[i]) && !IsRoot(walk[i]) && !walk[i].visit.isDir ::
      walk[i].visit.size == |walk[i].visit.stream.read.bytes|
  }

  /** What GatherDirectoryResources returns: the resources collected so far
      together with the walk's error, if any. */
  datatype DirScan = DirScan(resources: Slice<Resource>, err: Option<Error>)

  /** Number of root items in a walk. */
  function RootCount(walk: seq<WalkItem>): (n: nat)
    ensures n <= |walk|
  {
    if |walk| == 0 then 0 else (if IsRoot(walk[0]) then 1 else 0) + RootCount(walk[1..])
  }

  /** GatherDirectoryResources over the sequence of paths the walk visits.
      Unlike the archive scanner it keeps what it collected before a failure:
      the resources come back together with the error. The slice is nil
      exactly when nothing was collected. */
  function GatherDirectoryResources(walk: seq<WalkItem>, sep: char, fixMode: FileMode -> FileMode,
                                    digest: Digest): (r: DirScan)
    ensures r.err == None || r.err == Some(IoErr)
    ensures r.err.None? <==> forall i | 0 <= i < |walk| :: Walkable(walk[i])
    ensures r.resources.Nil? <==> r.resources.Items() == []
    ensures |r.resources.Items()| <= |walk|
    ensures r.err.None? ==> |r.resources.Items()| == |walk| - RootCount(walk)
  {
    if |walk| == 0 then DirScan(Nil, None)
    else if !Walkable(walk[0]) then DirScan(Nil, Some(IoErr))
    else
      var rest := GatherDirectoryResources(walk[1..], sep, fixMode, digest);
      if IsRoot(walk[0]) then rest
      else DirScan(Slice([WalkedResource(walk[0], sep, fixMode, digest)] + rest.resources.Items()), rest.err)
  }
}

/** Facts about the directory scan: how it decomposes over a walk, where each
    visited path's resource lands, and what a failure leaves behind. */
module DirectoryScanProperties {
  import opened Errors
  import opened Strings
  import opened Resources
  import opened Sources
  import opened DirectoryScan

  /** One step of the scan: an accepted first path contributes its resource
      (none for the root) in front of the resources of the rest of the walk. */
  lemma GatherDirectoryStep(walk: seq<WalkItem>, sep: char, fixMode: FileMode -> FileMode, digest: Digest)
    requires |walk| > 0 && Walkable(walk[0])
    ensures GatherDirectoryResources(walk, sep, fixMode, digest).resources.Items()
            == Described(walk[0], sep, fixMode, digest)
               + GatherDirectoryResources(walk[1..], sep, fixMode, digest).resources.Items()
  {
    if IsRoot(walk[0]) {
      assert [] + GatherDirectoryResources(walk[1..], sep, fixMode, digest).resources.Items()
          == GatherDirectoryResources(walk[1..], sep, fixMode, digest).resources.Items();
    }
  }

  /** Scanning a walk in two parts: when the first part has no failure, the
      resources of the whole walk are those of the first part followed by
      those of the second. */
  lemma {:induction false} GatherAppend(a: seq<WalkItem>, b: seq<WalkItem>, sep: char,
                                        fixMode: FileMode -> FileMode, digest: Digest)
    requires forall j | 0 <= j < |a| :: Walkable(a[j])
    ensures GatherDirectoryResources(a + b, sep, fixMode, digest).resources.Items()
         == GatherDirectoryResources(a, sep, fixMode, digest).resources.Items()
            + GatherDirectoryResources(b, sep, fixMode, digest).resources.Items()
  {
    if |a| == 0 {
      assert a + b == b;
    } else {
      var ab := a + b;
      assert ab[0] == a[0];
      assert ab[1..] == a[1..] + b;
      GatherAppend(a[1..], b, sep, fixMode, digest);
      GatherDirectoryStep(ab, sep, fixMode, digest);
      GatherDirectoryStep(a, sep, fixMode, digest);
      ConcatAssoc(Described(a[0], sep, fixMode, digest),
                  GatherDirectoryResources(a[1..], sep, fixMode, digest).resources.Items(),
                  GatherDirectoryResources(b, sep, fixMode, digest).resources.Items());
    }
  }

  /** Every name the scan produces is in slash form, so it holds no host
      separator other than '/', and a file's name does not end in '/' when
      no visited file's relative path does. */
  lemma {:induction false} ScannedNames(walk: seq<WalkItem>, sep: char, fixMode: FileMode -> FileMode, digest: Digest)
    requires FileNamesWithoutTrailingSlash(walk, sep)
    ensures forall i | 0 <= i < |GatherDirectoryResources(walk, sep, fixMode, digest).resources.Items()| ::
              sep != '/' ==> sep !in GatherDirectoryResources(walk, sep, fixMode, digest).resources.Items()[i].filename
    ensures forall i | 0 <= i < |GatherDirectoryResources(walk, sep, fixMode, digest).resources.Items()| ::
              GatherDirectoryResources(walk, sep, fixMode, digest).resources.Items()[i].sha1 != ""
              ==> !EndsWithSlash(GatherDirectoryResources(walk, sep, fixMode, digest).resources.Items()[i].filename)
  {
    if |walk| > 0 && Walkable(walk[0]) {
      ScannedNames(walk[1..], sep, fixMode, digest);
    }
  }

  /** Every path the walk visited before the first failure, other than the
      root, is described in walk order: path `i` lands at position `i` less
      the number of roots visited before it. */
  lemma GatherDirectoryOrder(walk: seq<WalkItem>, sep: char, fixMode: FileMode -> FileMode,
                             digest: Digest, i: nat)
    requires i < |walk|
    requires forall j | 0 <= j <= i :: Walkable(walk[j])
    requires !IsRoot(walk[i])
    ensures RootCount(walk[..i]) <= i
    ensures i - RootCount(walk[..i]) < |GatherDirectoryResources(walk, sep, fixMode, digest).resources.Items()|
    ensures GatherDirectoryResources(walk, sep, fixMode, digest).resources.Items()[i - RootCount(walk[..i])]
            == WalkedResource(walk[i], sep, fixMode, digest)
  {
    assert walk == walk[..i] + walk[i..];
    GatherAppend(walk[..i], walk[i..], sep, fixMode, digest);
    GatherDirectoryStep(walk[i..], sep, fixMode, digest);
    IndexAfterPrefix(GatherDirectoryResources(walk, sep, fixMode, digest).resources.Items(),
                     GatherDirectoryResources(walk[..i], sep, fixMode, digest).resources.Items(),
                     GatherDirectoryResources(walk[i..], sep, fixMode, digest).resources.Items(), 0);
  }

  lemma ConcatAssoc<T>(x: seq<T>, y: seq<T>, z: seq<T>)
    ensures x + (y + z) == (x + y) + z
  {
  }

  /** Position `k` of the second part of a concatenation. */
  lemma IndexAfterPrefix<T>(s: seq<T>, a: seq<T>, b: seq<T>, k: nat)
    requires s == a + b && k < |b|
    ensures |a| + k < |s| && s[|a| + k] == b[k]
  {
  }

  /** On the first failing path the walk stops and the scan returns exactly
      the resources of the paths before it, with the error. */
  lemma {:induction false} GatherDirectoryStopsAtFirstFailure(walk: seq<WalkItem>, sep: char,
                                                              fixMode: FileMode -> FileMode, digest: Digest, k: nat)
    requires k < |walk|
    requires forall j | 0 <= j < k :: Walkable(walk[j])
    requires !Walkable(walk[k])
    ensures GatherDirectoryResources(walk[..k], sep, fixMode, digest).err == None
    ensures GatherDirectoryResources(walk, sep, fixMode, digest)
            == DirScan(GatherDirectoryResources(walk[..k], sep, fixMode, digest).resources, Some(IoErr))
  {
    if k > 0 {
      assert walk[..k][1..] == walk[1..][..k - 1];
      GatherDirectoryStopsAtFirstFailure(walk[1..], sep, fixMode, digest, k - 1);
    } else {
      assert walk[..0] == [];
    }
  }
}
