/** Naming of the output file and the choice of encoder from its suffix. */
module OutputPath {
  import opened Wrappers

  /** The format argument handed to `save`: PNG, JPEG, or none at all (`DefaultEncoder`),
      in which case the image library picks the format from the file extension. */
  datatype Format = Png | Jpeg | DefaultEncoder

  const Suffix: string := "_no_watermark"

  /** Index of the last occurrence of `ch` in `s`, or -1. */
  function LastIndexOf(s: string, ch: char): (k: int)
    ensures -1 <= k < |s|
    ensures k >= 0 ==> s[k] == ch
    ensures forall i | k < i < |s| :: s[i] != ch
  {
    if |s| == 0 then -1
    else if s[|s| - 1] == ch then |s| - 1
    else LastIndexOf(s[..|s| - 1], ch)
  }

  /** The POSIX rule for splitting off an extension: the extension starts at the last dot
      of the last path component, unless only dots precede it in that component. */
  function SplitExt(p: string): (r: (string, string))
    ensures r.0 + r.1 == p
    ensures r.1 == [] || (r.1[0] == '.' && forall i | 0 <= i < |r.1| :: r.1[i] != '/')
    ensures forall i | 1 <= i < |r.1| :: r.1[i] != '.'
    ensures r.1 != [] ==> exists k | LastIndexOf(p, '/') < k < |r.0| :: p[k] != '.'
    ensures r.1 == [] ==> forall k | LastIndexOf(p, '/') < k < LastIndexOf(p, '.') :: p[k] == '.'
  {
    var sep := LastIndexOf(p, '/');
    var dot := LastIndexOf(p, '.');
    if dot > sep && exists k | sep + 1 <= k < dot :: p[k] != '.' then (p[..dot], p[dot..])
    else (p, [])
  }

  /** The output path used when none is given: the suffix goes between stem and extension. */
  function DefaultOutputPath(imagePath: string): (out: string)
    ensures |out| == |imagePath| + |Suffix| && out != imagePath
    ensures out[..|SplitExt(imagePath).0|] == SplitExt(imagePath).0
    ensures out[|out| - |SplitExt(imagePath).1|..] == SplitExt(imagePath).1
  {
    var (base, ext) := SplitExt(imagePath);
    base + Suffix + ext
  }

  /** ASCII lower-casing. */
  function LowerChar(c: char): char
  {
    if 'A' <= c <= 'Z' then (c as int + 32) as char else c
  }

  function Lower(s: string): (r: string)
    ensures |r| == |s| && forall i | 0 <= i < |s| :: r[i] == LowerChar(s[i])
  {
    seq(|s|, i requires 0 <= i < |s| => LowerChar(s[i]))
  }

  predicate EndsWith(s: string, suffix: string)
  {
    |suffix| <= |s| && s[|s| - |suffix|..] == suffix
  }

  /** The last |ext| characters of `path`, lower-cased, are `ext`. */
  predicate HasExtension(path: string, ext: string)
  {
    |ext| <= |path| && Lower(path[|path| - |ext|..]) == ext
  }

  /** Lower-casing commutes with taking a tail. */
  lemma LowerTail(path: string, k: nat)
    ensures k <= |path| ==> Lower(path)[|path| - k..] == Lower(path[|path| - k..])
  {
  }

  /** The lower-cased path ends with a lower-case pattern exactly when the path's tail,
      lower-cased, is the pattern. */
  lemma EndsWithLower(path: string, pattern: string)
    ensures EndsWith(Lower(path), pattern) <==> HasExtension(path, pattern)
  {
    LowerTail(path, |pattern|);
  }

  /** A path cannot end in both a PNG and a JPEG extension. */
  lemma PngExcludesJpeg(path: string)
    ensures HasExtension(path, ".png") ==> !HasExtension(path, ".jpg") && !HasExtension(path, ".jpeg")
  {
    if |path| >= 5 {
      assert Lower(path[|path| - 5..])[1..] == Lower(path[|path| - 4..]);
    }
  }

  /** The encoder picked from the case-insensitive suffix of the output path. */
  function ChooseFormat(path: string): (f: Format)
    ensures f == Png <==> HasExtension(path, ".png")
    ensures f == Jpeg <==> HasExtension(path, ".jpg") || HasExtension(path, ".jpeg")
  {
    EndsWithLower(path, ".png");
    EndsWithLower(path, ".jpg");
    EndsWithLower(path, ".jpeg");
    PngExcludesJpeg(path);
    var low := Lower(path);
    if EndsWith(low, ".png") then Png
    else if EndsWith(low, ".jpg") || EndsWith(low, ".jpeg") then Jpeg
    else DefaultEncoder
  }

  /** The encoder an extension names on its own. */
  function FormatOfExtension(ext: string): Format
  {
    var low := Lower(ext);
    if low == ".png" then Png
    else if low == ".jpg" || low == ".jpeg" then Jpeg
    else DefaultEncoder
  }

  /** The output path: the one given, or the default derived from the input path. */
  function OutputTarget(imagePath: string, outputPath: Option<string>): (out: string)
    ensures outputPath.Some? ==> out == outputPath.value
    ensures outputPath.None? ==> out == DefaultOutputPath(imagePath)
  {
    if outputPath.None? then DefaultOutputPath(imagePath) else outputPath.value
  }

  /** The tail of the driver: the output path, defaulted when none is given, and the
      format argument its lower-cased suffix selects. */
  method SaveTarget(imagePath: string, outputPath: Option<string>) returns (target: string, format: Format)
    ensures target == OutputTarget(imagePath, outputPath)
    ensures format == ChooseFormat(target)
  {
    var path := outputPath;
    if path.None? {
      var (base, ext) := SplitExt(imagePath);
      path := Some(base + Suffix + ext);
    }
    target := path.value;
    var low := Lower(target);
    if EndsWith(low, ".png") {
      format := Png;
    } else if EndsWith(low, ".jpg") || EndsWith(low, ".jpeg") {
      format := Jpeg;
    } else {
      format := DefaultEncoder;
    }
  }

  // ----- Properties -----

  /** Appending characters other than `ch` does not move its last occurrence. */
  lemma {:induction false} LastIndexAppend(a: string, b: string, ch: char)
    requires forall i | 0 <= i < |b| :: b[i] != ch
    ensures LastIndexOf(a + b, ch) == LastIndexOf(a, ch)
  {
    if |b| > 0 {
      var b' := b[..|b| - 1];
      assert (a + b)[..|a + b| - 1] == a + b';
      LastIndexAppend(a, b', ch);
    } else {
      assert a + b == a;
    }
  }

  /** The default output path splits into the suffixed stem and the same extension. */
  lemma DefaultPathSplit(p: string)
    ensures SplitExt(DefaultOutputPath(p)) == (SplitExt(p).0 + Suffix, SplitExt(p).1)
  {
    if SplitExt(p).1 == [] {
      NoExtensionSplit(p);
    } else {
      ExtensionSplit(p);
    }
  }

  lemma NoExtensionSplit(p: string)
    requires SplitExt(p).1 == []
    ensures SplitExt(p + Suffix) == (p + Suffix, [])
  {
    var q := p + Suffix;
    LastIndexAppend(p, Suffix, '/');
    LastIndexAppend(p, Suffix, '.');
    assert forall k | 0 <= k < |p| :: q[k] == p[k];
  }

  /** A non-dot character between the last slash and the last dot makes SplitExt cut at that dot. */
  lemma SplitAtLastDot(q: string, k: int)
    requires LastIndexOf(q, '/') < k < LastIndexOf(q, '.') && q[k] != '.'
    ensures SplitExt(q) == (q[..LastIndexOf(q, '.')], q[LastIndexOf(q, '.')..])
  {
  }

  /** Before an extension, the last dot of `stem + ext` is the one that opens the extension. */
  lemma DotOpensExtension(stem: string, ext: string)
    requires |ext| > 0 && ext[0] == '.' && forall i | 1 <= i < |ext| :: ext[i] != '.'
    ensures LastIndexOf(stem + ext, '.') == |stem|
  {
    var head := stem + ['.'];
    var tail := ext[1..];
    assert stem + ext == head + tail by {
      assert ext == ['.'] + tail;
    }
    LastIndexAppend(head, tail, '.');
  }

  /** Inserting the suffix before a slash-free extension does not move the last slash. */
  lemma SlashOfDefault(base: string, ext: string)
    requires forall i | 0 <= i < |ext| :: ext[i] != '/'
    ensures LastIndexOf(base + Suffix + ext, '/') == LastIndexOf(base + ext, '/')
  {
    LastIndexAppend(base, ext, '/');
    var rest := Suffix + ext;
    assert forall i | 0 <= i < |rest| :: rest[i] != '/' by {
      forall i | 0 <= i < |rest| ensures rest[i] != '/' {
        if i >= |Suffix| {
          assert rest[i] == ext[i - |Suffix|];
        }
      }
    }
    assert base + Suffix + ext == base + rest;
    LastIndexAppend(base, rest, '/');
  }

  lemma ExtensionSplit(p: string)
    requires SplitExt(p).1 != []
    ensures SplitExt(SplitExt(p).0 + Suffix + SplitExt(p).1) == (SplitExt(p).0 + Suffix, SplitExt(p).1)
  {
    var (base, ext) := SplitExt(p);
    var q := base + Suffix + ext;
    var sep := LastIndexOf(p, '/');
    var k :| sep < k < |base| && p[k] != '.';
    DotOpensExtension(base + Suffix, ext);
    SlashOfDefault(base, ext);
    assert q[k] == p[k];
    SplitAtLastDot(q, k);
    assert q[..|base| + |Suffix|] == base + Suffix;
    assert q[|base| + |Suffix|..] == ext;
  }

  /** `s` has no dot after its first character. */
  predicate DotFreeTail(s: string)
  {
    forall i | 1 <= i < |s| :: s[i] != '.'
  }

  /** Lower-casing works character by character, so it distributes over concatenation. */
  lemma LowerAppend(a: string, b: string)
    ensures Lower(a + b) == Lower(a) + Lower(b)
  {
    assert forall i | 0 <= i < |a + b| :: Lower(a + b)[i] == (Lower(a) + Lower(b))[i];
  }

  /** A dot-led, dot-free-tailed extension `e` at the end of `s + e` ends with an equally
      shaped pattern only when the two are equal. */
  lemma EndsWithDotted(s: string, e: string, pattern: string)
    requires |e| > 0 && e[0] == '.' && DotFreeTail(e)
    requires |pattern| > 0 && pattern[0] == '.' && DotFreeTail(pattern)
    ensures EndsWith(s + e, pattern) <==> e == pattern
  {
    var w := s + e;
    var n := |w|;
    if e == pattern {
      assert w[n - |pattern|..] == e;
    } else if |e| == |pattern| {
      assert w[n - |pattern|..] == e;
    } else if |e| < |pattern| <= n {
      assert w[n - |pattern|..][|pattern| - |e|] == e[0] == '.';
      assert pattern[|pattern| - |e|] != '.';
    } else if |pattern| < |e| {
      assert w[n - |pattern|..][0] == e[|e| - |pattern|] != '.';
    }
  }

  /** For an extension-shaped pattern, the lower-cased stem-plus-extension ends with the
      pattern exactly when the lower-cased extension is the pattern. */
  lemma EndsWithExtension(stem: string, ext: string, pattern: string)
    requires |ext| > 0 && ext[0] == '.' && DotFreeTail(ext)
    requires |pattern| > 0 && pattern[0] == '.' && DotFreeTail(pattern)
    ensures EndsWith(Lower(stem + ext), pattern) <==> Lower(ext) == pattern
  {
    LowerAppend(stem, ext);
    var e := Lower(ext);
    assert e[0] == '.' && DotFreeTail(e);
    EndsWithDotted(Lower(stem), e, pattern);
  }

  /** The encoder chosen for a path whose extension is `ext` is the one `ext` names. */
  lemma FormatByExtension(stem: string, ext: string)
    requires |ext| > 0 && ext[0] == '.' && DotFreeTail(ext)
    ensures ChooseFormat(stem + ext) == FormatOfExtension(ext)
  {
    EndsWithExtension(stem, ext, ".png");
    EndsWithExtension(stem, ext, ".jpg");
    EndsWithExtension(stem, ext, ".jpeg");
  }

  /** A path ending in `k`, as the suffix does, names neither PNG nor JPEG. */
  lemma EndingKNamesNoFormat(q: string)
    requires |q| > 0 && q[|q| - 1] == 'k'
    ensures ChooseFormat(q) == DefaultEncoder
  {
    assert !HasExtension(q, ".png") && !HasExtension(q, ".jpg") by {
      if |q| >= 4 {
        var t := Lower(q[|q| - 4..]);
        assert t[3] == 'k';
        assert t != ".png" && t != ".jpg";
      }
    }
    assert !HasExtension(q, ".jpeg") by {
      if |q| >= 5 {
        var t := Lower(q[|q| - 5..]);
        assert t[4] == 'k';
        assert t != ".jpeg";
      }
    }
  }

  /** The default output path is saved with the encoder the input's extension names, and
      with no format argument when the input has no extension. */
  lemma DefaultPathFormat(p: string)
    ensures ChooseFormat(DefaultOutputPath(p)) == FormatOfExtension(SplitExt(p).1)
  {
    var (base, ext) := SplitExt(p);
    if ext == [] {
      var q := DefaultOutputPath(p);
      assert q == p + Suffix;
      assert q[|q| - 1] == 'k';
      EndingKNamesNoFormat(q);
    } else {
      FormatByExtension(base + Suffix, ext);
    }
  }

  /** The choice ignores letter case: two paths that lower-case alike get the same encoder. */
  lemma FormatIgnoresCase(p: string)
    ensures ChooseFormat(Lower(p)) == ChooseFormat(p)
  {
    assert Lower(Lower(p)) == Lower(p);
  }
}
