/**
  The sidecar file name: the image's base name without its extension,
  followed by `_ocr.txt`, in the working directory.
*/
module Output {
  import opened Paths

  const Suffix: string := "_ocr.txt"

  /** `os.path.splitext(os.path.basename(path))[0] + "_ocr.txt"`. */
  function OutputFileName(imagePath: string, platform: Platform): (name: string)
    ensures |name| >= |Suffix| && name[|name| - |Suffix|..] == Suffix
    ensures forall i :: 0 <= i < |name| - |Suffix| ==> name[i] !in Separators(platform)
  {
    var stem := SplitExt(Basename(imagePath, platform), platform).0;
    assert forall i :: 0 <= i < |stem| ==> stem[i] == Basename(imagePath, platform)[i];
    stem + Suffix
  }

  /** The directory is dropped and the extension stripped, whatever its case. */
  lemma OutputFileNameOfImage(dir: string, stem: string, ext: string, platform: Platform)
    requires dir == [] || dir[|dir| - 1] in Separators(platform)
    requires dir == [] ==> DriveLength(stem + ext, platform) == 0
    requires forall i :: 0 <= i < |stem| ==> stem[i] !in Separators(platform)
    requires !AllDots(stem)
    requires |ext| > 0 && ext[0] == '.' && IsExtension(ext, platform)
    ensures OutputFileName(dir + stem + ext, platform) == stem + Suffix
  {
    var name := stem + ext;
    assert dir + stem + ext == dir + name;
    assert forall i :: 0 <= i < |name| ==> name[i] !in Separators(platform) by {
      forall i | 0 <= i < |name| ensures name[i] !in Separators(platform) {
        if i < |stem| { assert name[i] == stem[i]; } else { assert name[i] == ext[i - |stem|]; }
      }
    }
    BasenameAfterDirectory(dir, name, platform);
    StemOfName(stem, ext, platform);
  }

  lemma StemOfName(stem: string, ext: string, platform: Platform)
    requires forall i :: 0 <= i < |stem| ==> stem[i] !in Separators(platform)
    requires !AllDots(stem)
    requires |ext| > 0 && ext[0] == '.' && IsExtension(ext, platform)
    ensures SplitExt(stem + ext, platform).0 == stem
  {
    SplitExtOfName([], stem, ext, platform);
    assert [] + stem + ext == stem + ext;
    assert [] + stem == stem;
  }

  /** A base name without an extension is kept whole. */
  lemma OutputFileNameWithoutExtension(dir: string, name: string, platform: Platform)
    requires dir == [] || dir[|dir| - 1] in Separators(platform)
    requires dir == [] ==> DriveLength(name, platform) == 0
    requires forall i :: 0 <= i < |name| ==> name[i] !in Separators(platform)
    requires Extension(name, platform) == []
    ensures OutputFileName(dir + name, platform) == name + Suffix
  {
    BasenameAfterDirectory(dir, name, platform);
  }

  /** Two images that differ only in their extension (`photo.JPG`, `photo.jpg`)
      share one sidecar name. */
  lemma SidecarIgnoresExtension(dir: string, stem: string, ext: string, other: string, platform: Platform)
    requires dir == [] || dir[|dir| - 1] in Separators(platform)
    requires dir == [] ==> DriveLength(stem + ext, platform) == 0 && DriveLength(stem + other, platform) == 0
    requires forall i :: 0 <= i < |stem| ==> stem[i] !in Separators(platform)
    requires !AllDots(stem)
    requires |ext| > 0 && ext[0] == '.' && IsExtension(ext, platform)
    requires |other| > 0 && other[0] == '.' && IsExtension(other, platform)
    ensures OutputFileName(dir + stem + ext, platform) == OutputFileName(dir + stem + other, platform)
  {
    OutputFileNameOfImage(dir, stem, ext, platform);
    OutputFileNameOfImage(dir, stem, other, platform);
  }
}
