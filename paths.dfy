/**
 * The path helpers of the texture importer: `get_file_extension` finds the
 * extension of a file name and `get_filename` turns a path into the clip
 * name, the last path component without its extension.
 */
module Paths {
  import opened PyStr

  /** The text after the last '.' of `name`, or all of `name` when it has none. */
  function ExtensionTail(name: string): (r: string)
    ensures |r| <= |name| && r == name[|name| - |r|..]
    ensures '.' !in r
    ensures |r| == |name| || name[|name| - |r| - 1] == '.'
  {
    if |name| == 0 || name[|name| - 1] == '.' then ""
    else
      var init := name[..|name| - 1];
      var t := ExtensionTail(init);
      assert name[|name| - |t| - 1..] == t + [name[|name| - 1]];
      t + [name[|name| - 1]]
  }

  /** What `get_file_extension` returns: a '.' and the text after the last '.'. */
  function FileExtension(name: string): string {
    "." + ExtensionTail(name)
  }

  /** A suffix free of '.' that reaches the start of `name` or a '.' is the extension tail. */
  lemma ExtensionTailUnique(name: string, t: string)
    requires |t| <= |name| && t == name[|name| - |t|..]
    requires '.' !in t
    requires |t| == |name| || name[|name| - |t| - 1] == '.'
    ensures t == ExtensionTail(name)
  {
    var e := ExtensionTail(name);
    assert |t| == |e|;
  }

  /**
   * get_file_extension: walks the name from its end, collecting characters
   * until the first '.' it meets, and returns "." followed by them. (The
   * source collects them reversed and reverses them back; prepending each
   * character gives the same string.)
   */
  method GetFileExtension(filename: string) returns (ext: string)
    ensures |ext| >= 1 && ext[0] == '.' && '.' !in ext[1..]
    ensures |ext| - 1 <= |filename| && ext[1..] == filename[|filename| - (|ext| - 1)..]
    ensures |ext| - 1 == |filename| || filename[|filename| - |ext|] == '.'
    ensures ext == FileExtension(filename)
  {
    var tail := "";
    var i := |filename|;
    while i > 0 && filename[i - 1] != '.'
      invariant 0 <= i <= |filename|
      invariant tail == filename[i..]
      invariant '.' !in tail
    {
      tail := [filename[i - 1]] + tail;
      i := i - 1;
    }
    ExtensionTailUnique(filename, tail);
    ext := "." + tail;
    assert ext[1..] == tail;
  }

  /** When the name holds a '.', it ends with its extension, that '.' included. */
  lemma ExtensionEndsName(name: string)
    requires '.' in name
    ensures |FileExtension(name)| <= |name|
    ensures name[|name| - |FileExtension(name)|..] == FileExtension(name)
  {
    var t := ExtensionTail(name);
    assert name[|name| - |t| - 1..] == "." + t;
  }

  /** `filePath.split("/")[-1]`: the last path component. */
  function BaseName(path: string): (b: string)
    ensures '/' !in b
  {
    var parts := Split(path, '/');
    parts[|parts| - 1]
  }

  /**
   * get_filename: the last component of the path with every occurrence of
   * its extension removed (`str.replace` with an empty replacement).
   */
  function GetFilename(path: string): (r: string)
    ensures '/' !in r
    ensures |r| <= |BaseName(path)|
  {
    var base := BaseName(path);
    RemoveAll(base, FileExtension(base))
  }

  /** A component without a '.' has an extension longer than itself, so it comes back whole. */
  lemma GetFilenameWithoutDot(path: string)
    requires '.' !in BaseName(path)
    ensures GetFilename(path) == BaseName(path)
  {
    var base := BaseName(path);
    ExtensionTailUnique(base, base);
  }

  /** Removing a pattern that occurs nowhere leaves the string as it is. */
  lemma {:induction false} RemoveAbsent(s: string, pat: string)
    requires forall i :: !OccursAt(s, pat, i)
    ensures RemoveAll(s, pat) == s
  {
    if |pat| > 0 && |s| >= |pat| {
      assert !OccursAt(s, pat, 0);
      forall i: nat ensures !OccursAt(s[1..], pat, i) {
        assert !OccursAt(s, pat, i + 1);
        OccursAtIff(s, pat, i + 1);
        OccursAtIff(s[1..], pat, i);
        if i + |pat| <= |s[1..]| {
          assert s[1..][i..i + |pat|] == s[i + 1..i + 1 + |pat|];
        }
      }
      RemoveAbsent(s[1..], pat);
      assert s == [s[0]] + s[1..];
    }
  }

  /**
   * An extension ("." and no further '.') cannot straddle the end of a stem
   * it follows, so the trailing copy is removed and the stem is treated on
   * its own.
   */
  lemma {:induction false} RemoveTrailingExtension(stem: string, ext: string)
    requires |ext| >= 1 && ext[0] == '.' && '.' !in ext[1..]
    ensures RemoveAll(stem + ext, ext) == RemoveAll(stem, ext)
    decreases |stem|
  {
    var s := stem + ext;
    StartsWithIff(s, ext);
    StartsWithIff(stem, ext);
    if stem == "" {
      assert s == ext;
      assert s[..|ext|] == ext;
      assert s[|ext|..] == "";
    } else if s[..|ext|] == ext {
      if |stem| < |ext| {
        ExtensionNotStraddling(stem, ext);
        assert false;
      }
      assert stem[..|ext|] == ext;
      assert s[|ext|..] == stem[|ext|..] + ext;
      RemoveTrailingExtension(stem[|ext|..], ext);
    } else {
      assert s[1..] == stem[1..] + ext;
      RemoveTrailingExtension(stem[1..], ext);
      if |stem| >= |ext| {
        assert stem[..|ext|] == s[..|ext|];
      } else {
        RemoveAbsentShort(stem, ext);
        RemoveAbsentShort(stem[1..], ext);
        assert stem == [stem[0]] + stem[1..];
      }
    }
  }

  /** A short non-empty stem followed by an extension does not start with that extension. */
  lemma ExtensionNotStraddling(stem: string, ext: string)
    requires |ext| >= 1 && ext[0] == '.' && '.' !in ext[1..]
    requires 0 < |stem| < |ext|
    ensures (stem + ext)[..|ext|] != ext
  {
    var s := stem + ext;
    assert s[..|ext|][|stem|] == '.';
    assert ext[|stem|] == ext[1..][|stem| - 1];
  }

  /** A string shorter than the pattern is left alone. */
  lemma RemoveAbsentShort(s: string, pat: string)
    requires |s| < |pat|
    ensures RemoveAll(s, pat) == s
  {
  }

  /**
   * When the component is `stem + extension` and the extension occurs
   * nowhere in the stem, get_filename gives the stem.
   */
  lemma GetFilenameStem(path: string, stem: string)
    requires BaseName(path) == stem + FileExtension(BaseName(path))
    requires forall i :: !OccursAt(stem, FileExtension(BaseName(path)), i)
    ensures GetFilename(path) == stem
  {
    var ext := FileExtension(BaseName(path));
    assert ext[1..] == ExtensionTail(BaseName(path));
    RemoveTrailingExtension(stem, ext);
    RemoveAbsent(stem, ext);
  }

  /** A text with no '.' in front of the rest leaves the removal to the rest. */
  lemma {:induction false} RemoveAfterPlain(a: string, rest: string, ext: string)
    requires '.' !in a && |ext| >= 1 && ext[0] == '.'
    ensures RemoveAll(a + rest, ext) == a + RemoveAll(rest, ext)
    decreases |a|
  {
    if a != "" {
      var s := a + rest;
      StartsWithIff(s, ext);
      if |s| >= |ext| {
        assert s[..|ext|][0] == a[0];
      }
      assert s[1..] == a[1..] + rest;
      RemoveAfterPlain(a[1..], rest, ext);
      if |s| < |ext| {
        RemoveAbsentShort(rest, ext);
      }
      assert a == [a[0]] + a[1..];
    } else {
      assert a + rest == rest;
    }
  }

  /** A text that starts with the extension loses that copy. */
  lemma RemoveLeading(ext: string, rest: string)
    requires |ext| >= 1
    ensures RemoveAll(ext + rest, ext) == RemoveAll(rest, ext)
  {
    StartsWithIff(ext + rest, ext);
    assert (ext + rest)[..|ext|] == ext;
    assert (ext + rest)[|ext|..] == rest;
  }

  /** The extension of `a.ext` + `b.ext`, for `a` and `b` without '.', is `ext`. */
  lemma InnerCopyExtension(a: string, b: string, ext: string)
    requires '.' !in b && |ext| >= 1 && ext[0] == '.' && '.' !in ext[1..]
    ensures ExtensionTail(a + ext + b + ext) == ext[1..]
  {
    var name := a + ext + b + ext;
    var t := ext[1..];
    assert name[|name| - |t|..] == t;
    assert name[|name| - |t| - 1] == ext[0];
    ExtensionTailUnique(name, t);
  }

  /**
   * get_filename deletes every copy of the extension, not only the last:
   * from `a.ext` + `b.ext` (a and b without '.') it leaves `a + b`.
   */
  lemma RemovesInnerCopy(a: string, b: string, ext: string)
    requires '.' !in a && '.' !in b && |ext| >= 1 && ext[0] == '.'
    ensures RemoveAll(a + ext + b + ext, ext) == a + b
  {
    var tail := b + ext;
    calc {
      RemoveAll(a + ext + b + ext, ext);
      { assert a + ext + b + ext == a + (ext + tail); }
      RemoveAll(a + (ext + tail), ext);
      { RemoveAfterPlain(a, ext + tail, ext); }
      a + RemoveAll(ext + tail, ext);
      { RemoveLeading(ext, tail); }
      a + RemoveAll(tail, ext);
      { RemoveLastCopy(b, ext); }
      a + b;
    }
  }

  /** `b.ext` (b without '.') loses its extension. */
  lemma RemoveLastCopy(b: string, ext: string)
    requires '.' !in b && |ext| >= 1 && ext[0] == '.'
    ensures RemoveAll(b + ext, ext) == b
  {
    RemoveAfterPlain(b, ext, ext);
    RemoveLeading(ext, "");
    assert ext + "" == ext;
    assert b + "" == b;
  }

  /**
   * The clip name as the source's comment describes it: the last component
   * without its trailing extension. A component without '.' has none.
   */
  function ClipName(path: string): (r: string)
    ensures '/' !in r
    ensures '.' in BaseName(path) ==> r + FileExtension(BaseName(path)) == BaseName(path)
    ensures '.' !in BaseName(path) ==> r == BaseName(path)
  {
    var base := BaseName(path);
    if '.' in base then
      ExtensionEndsName(base);
      var r := base[..|base| - |FileExtension(base)|];
      assert '/' !in r by {
        forall i | 0 <= i < |r| ensures r[i] != '/' {
          assert r[i] == base[i];
        }
      }
      r
    else base
  }

  /** Where the extension occurs only at the end, get_filename is that clip name. */
  lemma ClipNameAgrees(path: string)
    requires '.' in BaseName(path)
    requires forall i :: !OccursAt(ClipName(path), FileExtension(BaseName(path)), i)
    ensures GetFilename(path) == ClipName(path)
  {
    GetFilenameStem(path, ClipName(path));
  }

  /** For a component `a.ext` + `b.ext`, get_filename gives `a + b`; the clip name is `a.ext` + `b`. */
  lemma InnerCopyClipName(path: string, a: string, b: string, ext: string)
    requires path == a + ext + b + ext && |ext| >= 1 && ext[0] == '.'
    requires forall i :: 0 <= i < |path| ==> path[i] != '/'
    requires forall i :: 0 <= i < |a| ==> a[i] != '.'
    requires forall i :: 0 <= i < |b| ==> b[i] != '.'
    requires forall i :: 1 <= i < |ext| ==> ext[i] != '.'
    ensures GetFilename(path) == a + b
    ensures ClipName(path) == a + ext + b
  {
    assert '.' !in ext[1..] by {
      forall i | 0 <= i < |ext[1..]| ensures ext[1..][i] != '.' {
        assert ext[1..][i] == ext[i + 1];
      }
    }
    SplitWithout(path, '/');
    assert BaseName(path) == path;
    InnerCopyExtension(a, b, ext);
    assert FileExtension(path) == ext;
    RemovesInnerCopy(a, b, ext);
    assert path[|a| + |ext| + |b|] == '.';
    var r := ClipName(path);
    assert r + ext == path;
    assert r == path[..|path| - |ext|];
  }

  /**
   * `Hero.tif_v1.tif`: get_filename gives `Hero_v1`, the clip name is
   * `Hero.tif_v1`.
   */
  lemma InnerExtensionExample(path: string, a: string, b: string, ext: string)
    requires a == "Hero" && b == "_v1" && ext == ".tif" && path == "Hero.tif_v1.tif"
    ensures GetFilename(path) == "Hero_v1"
    ensures ClipName(path) == "Hero.tif_v1"
  {
    assert path == a + ext + b + ext;
    assert a + b == "Hero_v1" && a + ext + b == "Hero.tif_v1";
    InnerCopyClipName(path, a, b, ext);
  }
}
