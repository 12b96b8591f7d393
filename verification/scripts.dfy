/** The helpers of the scripts package that the models use: the model name derived from a CSV
    path (`make_model_name`), and the row slices in which `read_csv_in_chunks` hands out a
    table of `height` rows. */
module Scripts {
  import opened Outcomes
  import opened Text

  // ---------------------------------------------------------------------------------------
  // make_model_name

  /** `os.path.basename` with `/` as separator: the text after the last `/`. */
  function Basename(path: string): (r: string)
    ensures '/' !in r
    ensures |r| <= |path| && path[|path| - |r|..] == r
    ensures |r| == |path| || path[|path| - |r| - 1] == '/'
  {
    match LastIndex(path, '/')
    case None => path
    case Some(i) => path[i + 1..]
  }

  /** The basename is the only `/`-free suffix that is the whole path or follows a `/`. */
  lemma BasenameUnique(path: string, r: string)
    requires '/' !in r
    requires |r| <= |path| && path[|path| - |r|..] == r
    requires |r| == |path| || path[|path| - |r| - 1] == '/'
    ensures r == Basename(path)
  {
    var b := Basename(path);
    assert forall k :: |path| - |b| <= k < |path| ==> path[k] != '/' by {
      forall k | |path| - |b| <= k < |path| ensures path[k] != '/' {
        assert path[k] == b[k - (|path| - |b|)];
      }
    }
    assert forall k :: |path| - |r| <= k < |path| ==> path[k] != '/' by {
      forall k | |path| - |r| <= k < |path| ensures path[k] != '/' {
        assert path[k] == r[k - (|path| - |r|)];
      }
    }
    assert |r| == |b|;
  }

  /** Directory components never affect the basename. */
  lemma BasenameIgnoresDirectory(dir: string, path: string)
    ensures Basename(dir + "/" + path) == Basename(path)
  {
    var full := dir + "/" + path;
    var b := Basename(path);
    assert full[|full| - |path|..] == path;
    assert full[|full| - |b|..] == b by {
      assert full[|full| - |b|..] == path[|path| - |b|..];
    }
    if |b| == |path| {
      assert full[|full| - |b| - 1] == '/';
    } else {
      assert full[|full| - |b| - 1] == path[|path| - |b| - 1];
    }
    BasenameUnique(full, b);
  }

  /** Some character of `s` is not a dot. */
  predicate HasNonDot(s: string)
  {
    exists k | 0 <= k < |s| :: s[k] != '.'
  }

  /** `os.path.splitext` with `/` as separator: the extension starts at the last dot after the
      last `/`, provided that some character between them is not a dot (so leading dots, as in
      `.bashrc`, do not start an extension). */
  function SplitExt(p: string): (r: (string, string))
    ensures r.0 + r.1 == p
    ensures r.1 == "" || (r.1[0] == '.' && '.' !in r.1[1..] && '/' !in r.1)
  {
    var sepIndex: int := match LastIndex(p, '/') case None => -1 case Some(i) => i;
    match LastIndex(p, '.')
    case None => (p, "")
    case Some(dot) =>
      if dot > sepIndex && exists k | sepIndex < k < dot :: p[k] != '.' then
        assert forall j | dot <= j < |p| :: p[j] != '/' by {
          forall j | dot <= j < |p| ensures p[j] != '/' {
            if sepIndex >= 0 {
              assert p[j] == p[sepIndex + 1..][j - sepIndex - 1];
            }
          }
        }
        (p[..dot], p[dot..])
      else (p, "")
  }

  /** Splitting a name built from a stem and a dot-free extension gives them back. */
  lemma SplitExtRoundTrip(stem: string, ext: string)
    requires '/' !in stem && HasNonDot(stem)
    requires '.' !in ext && '/' !in ext
    ensures SplitExt(stem + "." + ext) == (stem, "." + ext)
  {
    var p := stem + "." + ext;
    assert p[|stem| + 1..] == ext;
    LastIndexAt(p, '.', |stem|);
    forall k | 0 <= k < |p| ensures p[k] != '/' {
      if k < |stem| {
        assert p[k] == stem[k];
      } else if k > |stem| {
        assert p[k] == ext[k - |stem| - 1];
      }
    }
    assert LastIndex(p, '/') == None;
    var k :| 0 <= k < |stem| && stem[k] != '.';
    assert p[k] != '.';
    assert p[..|stem|] == stem;
    assert p[|stem|..] == "." + ext;
  }

  /** A name without a dot has no extension. */
  lemma SplitExtNoDot(p: string)
    requires '.' !in p
    ensures SplitExt(p) == (p, "")
  {
  }

  /** A name made of leading dots and a dot-free tail, such as `.env`, has no extension. */
  lemma SplitExtHiddenFile(dots: nat, name: string)
    requires '.' !in name && '/' !in name
    ensures SplitExt(seq(dots + 1, _ => '.') + name) == (seq(dots + 1, _ => '.') + name, "")
  {
    var p := seq(dots + 1, _ => '.') + name;
    assert p[dots + 1..] == name;
    LastIndexAt(p, '.', dots);
    forall k | 0 <= k < |p| ensures p[k] != '/' {
      if k > dots {
        assert p[k] == name[k - dots - 1];
      }
    }
    assert LastIndex(p, '/') == None;
    assert forall k | 0 <= k < dots :: p[k] == '.';
  }

  /** `make_model_name`: the basename without its last extension, after `prefix + sep` when the
      prefix is given and non-empty (`if prefix:`). The name part followed by the extension is
      the basename again, and contains no `/`. */
  function MakeModelName(csvFn: string, prefix: Option<string> := None, sep: string := "_")
    : (r: string)
    ensures var lead := if prefix.Some? && prefix.value != "" then prefix.value + sep else "";
            && lead <= r
            && r[|lead|..] + SplitExt(Basename(csvFn)).1 == Basename(csvFn)
            && '/' !in r[|lead|..]
  {
    var name := SplitExt(Basename(csvFn)).0;
    assert forall k :: 0 <= k < |name| ==> name[k] == Basename(csvFn)[k];
    if prefix.Some? && prefix.value != "" then
      var r := prefix.value + sep + name;
      assert r[|prefix.value + sep|..] == name;
      r
    else name
  }

  /** Two paths that differ only in their directories give the same model name. */
  lemma ModelNameIgnoresDirectory(dir: string, csvFn: string, prefix: Option<string>, sep: string)
    ensures MakeModelName(dir + "/" + csvFn, prefix, sep) == MakeModelName(csvFn, prefix, sep)
  {
    BasenameIgnoresDirectory(dir, csvFn);
  }

  /** The model name of `dir/stem.ext` is the stem, after `prefix + sep` when the prefix is
      given and non-empty. */
  lemma ModelNameOfFile(dir: string, stem: string, ext: string, prefix: Option<string>,
                        sep: string)
    requires '/' !in stem && HasNonDot(stem)
    requires '.' !in ext && '/' !in ext
    ensures var expected := if prefix.Some? && prefix.value != "" then prefix.value + sep + stem
                            else stem;
            && MakeModelName(stem + "." + ext, prefix, sep) == expected
            && MakeModelName(dir + "/" + stem + "." + ext, prefix, sep) == expected
  {
    var file := stem + "." + ext;
    forall k | 0 <= k < |file| ensures file[k] != '/' {
      if k < |stem| {
        assert file[k] == stem[k];
      } else if k > |stem| {
        assert file[k] == ext[k - |stem| - 1];
      }
    }
    assert Basename(file) == file;
    SplitExtRoundTrip(stem, ext);
    assert dir + "/" + stem + "." + ext == dir + "/" + file;
    ModelNameIgnoresDirectory(dir, file, prefix, sep);
  }

  /** The bronze model's name: `seeds/seed_data.csv` with prefix `bronze` and separator `.`
      gives `bronze.seed_data`. */
  lemma BronzeModelName(csvFn: string, prefix: string, name: string)
    requires csvFn == "seeds/seed_data.csv" && prefix == "bronze"
    requires name == "bronze.seed_data"
    ensures MakeModelName(csvFn, Some(prefix), ".") == name
  {
    var file, stem := "seed_data.csv", "seed_data";
    assert name == prefix + "." + stem;
    SeedBasename(csvFn);
    SeedStem(file);
    ModelNameOfStem(csvFn, stem, prefix, ".");
  }

  lemma SeedBasename(csvFn: string)
    requires csvFn == "seeds/seed_data.csv"
    ensures Basename(csvFn) == "seed_data.csv"
  {
    assert csvFn[6..] == "seed_data.csv";
    BasenameUnique(csvFn, "seed_data.csv");
  }

  lemma SeedStem(file: string)
    requires file == "seed_data.csv"
    ensures SplitExt(file).0 == "seed_data"
  {
    assert "seed_data"[0] != '.';
    assert file == "seed_data" + "." + "csv";
    SplitExtRoundTrip("seed_data", "csv");
  }

  /** The model name from a path whose basename has stem `stem`. */
  lemma ModelNameOfStem(csvFn: string, stem: string, prefix: string, sep: string)
    requires SplitExt(Basename(csvFn)).0 == stem && prefix != ""
    ensures MakeModelName(csvFn, Some(prefix), sep) == prefix + sep + stem
  {
  }

  /** With the default separator the prefix is joined by `_`; without a prefix the name is the
      bare stem. */
  lemma DefaultSeparator(dir: string, stem: string, ext: string, prefix: string)
    requires '/' !in stem && HasNonDot(stem)
    requires '.' !in ext && '/' !in ext
    requires prefix != ""
    ensures MakeModelName(dir + "/" + stem + "." + ext, Some(prefix)) == prefix + "_" + stem
    ensures MakeModelName(dir + "/" + stem + "." + ext) == stem
  {
    ModelNameOfFile(dir, stem, ext, Some(prefix), "_");
    ModelNameOfFile(dir, stem, ext, None, "_");
  }

  // ---------------------------------------------------------------------------------------
  // read_csv_in_chunks: the slice arithmetic

  /** `range()` with a step of zero raises ValueError. */
  datatype ChunkError = ZeroStep

  function Min(a: int, b: int): int
  {
    if a < b then a else b
  }

  /** The rows `lo, lo + 1, ..., hi - 1`. */
  function Range(lo: int, hi: int): (r: seq<int>)
    ensures |r| == if lo < hi then hi - lo else 0
    ensures forall k :: 0 <= k < |r| ==> r[k] == lo + k
  {
    seq(if lo < hi then hi - lo else 0, k => lo + k)
  }

  lemma RangeAppend(lo: int, mid: int, hi: int)
    requires lo <= mid <= hi
    ensures Range(lo, mid) + Range(mid, hi) == Range(lo, hi)
  {
  }

  /** The rows of the slices, one slice after the other. */
  function Rows(slices: seq<(nat, nat)>): seq<int>
  {
    if |slices| == 0 then []
    else Rows(slices[..|slices| - 1]) + Range(slices[|slices| - 1].0, slices[|slices| - 1].1)
  }

  /** Offsets that start at 0 and grow by `step` are the multiples of `step`. */
  lemma {:induction false} OffsetsAreMultiples(slices: seq<(nat, nat)>, step: int, k: nat)
    requires |slices| > 0 && slices[0].0 == 0
    requires forall j :: 0 < j < |slices| ==> slices[j].0 == slices[j - 1].0 + step
    requires k < |slices|
    ensures slices[k].0 == k * step
  {
    if k > 0 {
      OffsetsAreMultiples(slices, step, k - 1);
    }
  }

  /** `slices` are the first slices of a table of `height` rows cut every `step` rows: the
      first starts at row 0, each next one `step` rows later, each starts below `height` and
      ends `step` rows later or at `height`, whichever comes first. */
  predicate SlicedEvery(slices: seq<(nat, nat)>, height: nat, step: int)
  {
    && (|slices| > 0 ==> slices[0].0 == 0)
    && (forall k :: 0 < k < |slices| ==> slices[k].0 == slices[k - 1].0 + step)
    && (forall k :: 0 <= k < |slices| ==>
          slices[k].0 < height && slices[k].1 == Min(slices[k].0 + step, height))
  }

  /** Taking one more slice at `i` keeps the slices well formed. */
  lemma SliceStep(slices: seq<(nat, nat)>, height: nat, step: int, i: nat)
    requires step > 0 && i < height
    requires SlicedEvery(slices, height, step)
    requires |slices| == 0 ==> i == 0
    requires |slices| > 0 ==> i == slices[|slices| - 1].0 + step
    ensures SlicedEvery(slices + [(i, Min(i + step, height))], height, step)
  {
    var next := slices + [(i, Min(i + step, height))];
    forall k | 0 < k < |next| ensures next[k].0 == next[k - 1].0 + step {
      if k < |slices| {
        assert next[k] == slices[k] && next[k - 1] == slices[k - 1];
      } else {
        assert next[k - 1] == slices[|slices| - 1];
      }
    }
    forall k | 0 <= k < |next|
      ensures next[k].0 < height && next[k].1 == Min(next[k].0 + step, height)
    {
      if k < |slices| {
        assert next[k] == slices[k];
      }
    }
  }

  /** ... and the rows of the slices now run up to `i + step`. */
  lemma SliceRows(slices: seq<(nat, nat)>, height: nat, step: int, i: nat)
    requires step > 0 && i < height
    requires Rows(slices) == Range(0, i)
    ensures Rows(slices + [(i, Min(i + step, height))]) == Range(0, Min(i + step, height))
  {
    var next := slices + [(i, Min(i + step, height))];
    assert next[..|slices|] == slices;
    RangeAppend(0, i, Min(i + step, height));
  }

  /** When the offsets pass `height`, there are `ceil(height / step)` slices. */
  lemma SliceCount(slices: seq<(nat, nat)>, height: nat, step: int, i: nat)
    requires step > 0 && i >= height
    requires SlicedEvery(slices, height, step)
    requires |slices| == 0 ==> i == 0
    requires |slices| > 0 ==> i == slices[|slices| - 1].0 + step
    ensures |slices| * step >= height
    ensures |slices| == 0 || (|slices| - 1) * step < height
  {
    if |slices| > 0 {
      OffsetsAreMultiples(slices, step, |slices| - 1);
      assert |slices| * step == (|slices| - 1) * step + step;
    }
  }

  /** The `(offset, end)` of every slice `df_lazy.slice(i, chunk_size)` taken for
      `i in range(0, height, chunk_size)`: offsets `0, chunk_size, 2 * chunk_size, ...` below
      `height`, as many as `ceil(height / chunk_size)`, whose rows together are every row once,
      in order. A step of zero is an error and a negative step gives no slice. */
  method ChunkSlices(height: nat, chunkSize: int) returns (r: Result<seq<(nat, nat)>, ChunkError>)
    ensures r.Err? <==> chunkSize == 0
    ensures chunkSize < 0 ==> r == Ok([])
    ensures chunkSize > 0 ==> r.Ok? && SlicedEvery(r.value, height, chunkSize)
    ensures chunkSize > 0 ==> |r.value| * chunkSize >= height
    ensures chunkSize > 0 ==> |r.value| == 0 || (|r.value| - 1) * chunkSize < height
    ensures chunkSize > 0 ==> Rows(r.value) == Range(0, height)
  {
    if chunkSize == 0 {
      return Err(ZeroStep);
    }
    if chunkSize < 0 {
      return Ok([]);
    }
    var slices := ForwardSlices(height, chunkSize);
    return Ok(slices);
  }

  /** The loop of `read_csv_in_chunks` for a positive chunk size. */
  method ForwardSlices(height: nat, step: int) returns (slices: seq<(nat, nat)>)
    requires step > 0
    ensures SlicedEvery(slices, height, step)
    ensures |slices| * step >= height
    ensures |slices| == 0 || (|slices| - 1) * step < height
    ensures Rows(slices) == Range(0, height)
  {
    slices := [];
    var i: nat := 0;
    while i < height
      invariant SlicedEvery(slices, height, step)
      invariant |slices| == 0 ==> i == 0
      invariant |slices| > 0 ==> i == slices[|slices| - 1].0 + step
      invariant Rows(slices) == Range(0, Min(i, height))
      decreases height - i
    {
      SliceStep(slices, height, step, i);
      SliceRows(slices, height, step, i);
      slices := slices + [(i, Min(i + step, height))];
      i := i + step;
    }
    SliceCount(slices, height, step, i);
  }
}
