/**
  Input resolution: which image the OCR run processes. With no configured
  path the first supported regular file of the directory listing is taken;
  otherwise the configured path must exist and carry a supported extension.
  The directory listing, `os.path.isfile` and `os.path.exists` are inputs.
*/
module Resolver {
  import opened Paths

  /** `SUPPORTED_EXTENSIONS`, in the script's order. */
  const SupportedExtensions: seq<string> := [".jpg", ".jpeg", ".png", ".webp", ".bmp", ".tif", ".tiff"]

  /** The lower-cased extension of `path` is one of the supported ones. */
  predicate IsSupported(path: string, platform: Platform) {
    LowerAscii(Extension(path, platform)) in SupportedExtensions
  }

  /** A listed name is a candidate when it is a regular file with a supported extension. */
  predicate IsCandidate(name: string, files: set<string>, platform: Platform) {
    name in files && IsSupported(name, platform)
  }

  /** `[x for x in xs if keep(x)]`. */
  function Filter(xs: seq<string>, keep: string -> bool): (kept: seq<string>)
    ensures |kept| <= |xs|
    ensures forall x :: x in kept <==> x in xs && keep(x)
  {
    if xs == [] then []
    else
      var rest := Filter(xs[1..], keep);
      assert forall x :: x in xs <==> x == xs[0] || x in xs[1..];
      if keep(xs[0]) then [xs[0]] + rest else rest
  }

  /** Filtering distributes over concatenation, so it keeps the order of its input. */
  lemma {:induction false} FilterAppend(a: seq<string>, b: seq<string>, keep: string -> bool)
    ensures Filter(a + b, keep) == Filter(a, keep) + Filter(b, keep)
    decreases |a|
  {
    if a == [] {
      assert a + b == b;
    } else {
      assert (a + b)[0] == a[0];
      assert (a + b)[1..] == a[1..] + b;
      FilterAppend(a[1..], b, keep);
    }
  }

  /** The first element kept is the first element that satisfies `keep`. */
  lemma {:induction false} FilterFirst(xs: seq<string>, keep: string -> bool, k: nat)
    requires k < |xs| && keep(xs[k])
    requires forall j :: 0 <= j < k ==> !keep(xs[j])
    ensures Filter(xs, keep) != [] && Filter(xs, keep)[0] == xs[k]
    decreases k
  {
    if k > 0 {
      var tail := xs[1..];
      forall j | 0 <= j < k - 1 ensures !keep(tail[j]) {
        assert tail[j] == xs[j + 1];
      }
      FilterFirst(tail, keep, k - 1);
    }
  }

  /** The auto-discovery list comprehension over the directory listing. */
  function Candidates(listing: seq<string>, files: set<string>, platform: Platform): (candidates: seq<string>)
    ensures |candidates| <= |listing|
    ensures forall name :: name in candidates <==> name in listing && IsCandidate(name, files, platform)
  {
    Filter(listing, name => IsCandidate(name, files, platform))
  }

  /** Candidates of a listing split in two are the candidates of each part, in order. */
  lemma CandidatesAppend(a: seq<string>, b: seq<string>, files: set<string>, platform: Platform)
    ensures Candidates(a + b, files, platform) == Candidates(a, files, platform) + Candidates(b, files, platform)
  {
    FilterAppend(a, b, name => IsCandidate(name, files, platform));
  }

  /** A single listed name survives the filter exactly when it is a candidate. */
  lemma CandidatesSingle(name: string, files: set<string>, platform: Platform)
    ensures Candidates([name], files, platform) == if IsCandidate(name, files, platform) then [name] else []
  {
    assert [name][1..] == [];
  }

  /** The first candidate is the first listed name that is a candidate. */
  lemma FirstCandidate(listing: seq<string>, files: set<string>, platform: Platform, k: nat)
    requires k < |listing| && IsCandidate(listing[k], files, platform)
    requires forall j :: 0 <= j < k ==> !IsCandidate(listing[j], files, platform)
    ensures Candidates(listing, files, platform) != []
    ensures Candidates(listing, files, platform)[0] == listing[k]
  {
    var keep := name => IsCandidate(name, files, platform);
    assert forall j :: 0 <= j < k ==> !keep(listing[j]);
    FilterFirst(listing, keep, k);
  }

  /** Outcome of resolution; the three failures are the script's error messages. */
  datatype Resolution =
    | NoImageFound
    | ImageNotFound(path: string)
    | UnsupportedFormat(ext: string)
    | Chosen(path: string)

  /** Resolves the configured path (`IMAGE_PATH`) against the working directory. */
  function Resolve(configured: string, listing: seq<string>, files: set<string>, existing: set<string>,
                   platform: Platform): (r: Resolution)
    ensures r.Chosen? ==> IsSupported(r.path, platform)
    ensures Strip(configured) == [] ==>
      (r.NoImageFound? <==> forall name :: name in listing ==> !IsCandidate(name, files, platform)) &&
      (r.Chosen? || r.NoImageFound?) &&
      (r.Chosen? ==> r.path in listing && r.path in files)
    ensures Strip(configured) != [] ==>
      (r.ImageNotFound? <==> Strip(configured) !in existing) &&
      (r.ImageNotFound? ==> r.path == Strip(configured)) &&
      (r.UnsupportedFormat? <==> Strip(configured) in existing && !IsSupported(Strip(configured), platform)) &&
      (r.UnsupportedFormat? ==> r.ext == LowerAscii(Extension(Strip(configured), platform)) && r.ext !in SupportedExtensions) &&
      (r.Chosen? ==> r.path == Strip(configured) && r.path in existing) &&
      (Strip(configured) in existing && IsSupported(Strip(configured), platform) ==> r == Chosen(Strip(configured)))
    ensures Strip(configured) == [] && Candidates(listing, files, platform) != [] ==>
      r == Chosen(Candidates(listing, files, platform)[0])
  {
    var path := Strip(configured);
    if path == [] then
      var candidates := Candidates(listing, files, platform);
      if candidates == [] then NoImageFound
      else
        assert candidates[0] in candidates;
        Chosen(candidates[0])
    else if path !in existing then
      ImageNotFound(path)
    else
      var ext := LowerAscii(Extension(path, platform));
      if ext !in SupportedExtensions then UnsupportedFormat(ext) else Chosen(path)
  }

  /** Auto-discovery picks the first listed regular file with a supported extension. */
  lemma AutoDiscoveryPicksFirst(configured: string, listing: seq<string>, files: set<string>, existing: set<string>,
                                platform: Platform, k: nat)
    requires Strip(configured) == []
    requires k < |listing| && IsCandidate(listing[k], files, platform)
    requires forall j :: 0 <= j < k ==> !IsCandidate(listing[j], files, platform)
    ensures Resolve(configured, listing, files, existing, platform) == Chosen(listing[k])
  {
    FirstCandidate(listing, files, platform, k);
  }

  /** A configured path that does not exist is reported as missing whatever its
      extension: the existence check comes first. */
  lemma MissingBeforeUnsupported(configured: string, listing: seq<string>, files: set<string>, existing: set<string>,
                                 platform: Platform)
    requires Strip(configured) != [] && Strip(configured) !in existing
    requires !IsSupported(Strip(configured), platform)
    ensures Resolve(configured, listing, files, existing, platform) == ImageNotFound(Strip(configured))
  {
  }

  /** Whitespace around the configured path is ignored. */
  lemma ConfiguredPathIsStripped(spaces: string, path: string, trailing: string, listing: seq<string>,
                                 files: set<string>, existing: set<string>, platform: Platform)
    requires AllSpace(spaces) && AllSpace(trailing)
    requires path != [] && !IsSpace(path[0]) && !IsSpace(path[|path| - 1])
    requires path in existing && IsSupported(path, platform)
    ensures Resolve(spaces + path + trailing, listing, files, existing, platform) == Chosen(path)
  {
    StripIsMiddle(spaces, path, trailing);
  }

  /** Paths that differ only in the case of ASCII letters are classified alike
      (`photo.JPG` and `photo.jpg`). */
  lemma SupportIsCaseInsensitive(p: string, q: string, platform: Platform)
    requires LowerAscii(p) == LowerAscii(q)
    ensures IsSupported(p, platform) <==> IsSupported(q, platform)
  {
    ExtensionOfLower(p, platform);
    ExtensionOfLower(q, platform);
  }
}
