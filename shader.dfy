/**
 * The shader helpers of `D3D12/Graphics/RHI/Shader.cpp`: the compile target
 * of a shader stage, the compiler argument list, the include handler that
 * inlines every header at most once, the on-disk shader cache and the
 * `ShaderManager` map from (file, entry point, defines) to shader objects.
 * The DXC compiler and the file system are inputs: a `FileSystem` value
 * says which files exist, their times and what a cache file holds, and a
 * `DxcRun` value says what one compiler invocation produced.
 */
module Shader {
  import opened Common

  type Bytes = seq<bv8>

  // ---------------------------------------------------------------------
  // Stage and target

  /** The stages the compiler distinguishes; `OtherStage` stands for every
      other value of the enumeration (the library stage among them). */
  datatype ShaderType = Vertex | Pixel | Geometry | Compute | Mesh | Amplification | OtherStage(Code: nat)

  /** `GetShaderTarget`: the profile prefix of a stage. */
  function GetShaderTarget(t: ShaderType): (target: string)
    ensures target == "lib" <==> t.OtherStage?
  {
    match t
    case Vertex => "vs"
    case Pixel => "ps"
    case Geometry => "gs"
    case Compute => "cs"
    case Mesh => "ms"
    case Amplification => "as"
    case OtherStage(_) => "lib"
  }

  /** The stage a profile prefix names, if it is one of the six. */
  function StageOfTarget(target: string): Option<ShaderType> {
    if target == "vs" then Some(Vertex)
    else if target == "ps" then Some(Pixel)
    else if target == "gs" then Some(Geometry)
    else if target == "cs" then Some(Compute)
    else if target == "ms" then Some(Mesh)
    else if target == "as" then Some(Amplification)
    else None
  }

  /** Each of the six stages has a target of its own: the target names the
      stage back, and "lib" names none of them. */
  lemma TargetNamesStage(t: ShaderType)
    ensures t.OtherStage? <==> StageOfTarget(GetShaderTarget(t)).None?
    ensures !t.OtherStage? ==> StageOfTarget(GetShaderTarget(t)) == Some(t)
  {}

  // ---------------------------------------------------------------------
  // Compiler arguments

  /** The text after "-D" for a define: a define that already holds '=' is
      passed as it is, otherwise `name=value` with "1" when no value is
      given. */
  function DefineText(define: string, value: Option<string>): string {
    if '=' in define then define else define + "=" + value.GetOr("1")
  }

  /** The position of the first '=' in `s`, or `|s|`. */
  function FirstEquals(s: string): (k: nat)
    ensures k <= |s| && '=' !in s[..k]
    ensures k < |s| ==> s[k] == '='
  {
    if s == [] then 0
    else if s[0] == '=' then 0
    else
      var k := 1 + FirstEquals(s[1..]);
      assert s[..k] == [s[0]] + s[1..][..k - 1];
      k
  }

  /** A `name=value` define read back: the name before the first '=' and
      the value after it. */
  function SplitDefine(text: string): (string, string) {
    var k := FirstEquals(text);
    (text[..k], if k < |text| then text[k + 1..] else "")
  }

  /** A define without '=' comes back from its argument as the name and the
      value given, or "1"; one with '=' reaches the compiler unchanged. */
  lemma DefineRoundTrip(define: string, value: Option<string>)
    ensures '=' in DefineText(define, value)
    ensures '=' !in define ==> SplitDefine(DefineText(define, value)) == (define, value.GetOr("1"))
    ensures '=' in define ==> DefineText(define, value) == define
  {
    var text := DefineText(define, value);
    if '=' !in define {
      assert text[|define|] == '=';
      assert text[..|define|] == define;
      assert text[|define| + 1..] == value.GetOr("1");
    }
  }

  /** `CompileArguments`: the argument list handed to the compiler. */
  class CompileArguments {
    var Arguments: seq<string>

    constructor()
      ensures Arguments == []
    {
      Arguments := [];
    }

    /** `AddArgument`: the argument, then its value when one is given. */
    method AddArgument(argument: string, value: Option<string>)
      modifies this
      ensures Arguments == old(Arguments) + [argument] + (if value.Some? then [value.value] else [])
    {
      Arguments := Arguments + [argument];
      if value.Some? {
        Arguments := Arguments + [value.value];
      }
    }

    /** `AddDefine`: "-D" followed by the define's text. */
    method AddDefine(define: string, value: Option<string>)
      modifies this
      ensures Arguments == old(Arguments) + ["-D", DefineText(define, value)]
    {
      if '=' in define {
        AddArgument("-D", Some(define));
      } else {
        AddArgument("-D", Some(define + "=" + value.GetOr("1")));
      }
    }
  }

  // ---------------------------------------------------------------------
  // Include paths

  function LowerChar(c: char): char {
    if 'A' <= c <= 'Z' then (c as int - 'A' as int + 'a' as int) as char else c
  }

  /** `CString::ToLower` on ASCII letters. */
  function Lower(s: string): (r: string)
    ensures |r| == |s| && forall i :: 0 <= i < |s| ==> r[i] == LowerChar(s[i])
  {
    seq(|s|, i requires 0 <= i < |s| => LowerChar(s[i]))
  }

  /** The position of the last '.' in `path`. */
  function LastDot(path: string): (r: Option<nat>)
    ensures r.Some? ==> r.value < |path| && path[r.value] == '.'
    ensures r.Some? ==> forall j :: r.value < j < |path| ==> path[j] != '.'
    ensures r.None? ==> forall j :: 0 <= j < |path| ==> path[j] != '.'
  {
    if path == [] then None
    else if path[|path| - 1] == '.' then Some(|path| - 1)
    else LastDot(path[..|path| - 1])
  }

  /** The file extension: the text after the last '.', empty without one. */
  function Extension(path: string): (e: string)
    ensures |e| < |path| || e == []
    ensures '.' !in e
  {
    match LastDot(path)
    case None => ""
    case Some(k) => path[k + 1..]
  }

  /** `IsValidIncludePath`: the extension, lower-cased, is "hlsli" or "h". */
  predicate IsValidIncludePath(path: string) {
    var e := Lower(Extension(path));
    e == "hlsli" || e == "h"
  }

  /** `path` ends with `suffix` when both are lower-cased; `suffix` is
      given in lower case. */
  predicate EndsWithIgnoringCase(path: string, suffix: string) {
    |path| >= |suffix| && forall i :: 0 <= i < |suffix| ==> LowerChar(path[|path| - |suffix| + i]) == suffix[i]
  }

  lemma LowerCharFacts(c: char)
    ensures LowerChar(c) == '.' <==> c == '.'
    ensures LowerChar(LowerChar(c)) == LowerChar(c)
  {}

  /** A last character that lower-cases to `d` together with a dot before
      the final `n - 1` non-dot characters makes the extension those
      characters. */
  lemma DotSuffix(path: string, n: nat)
    requires 1 <= n <= |path|
    requires LowerChar(path[|path| - n]) == '.'
    requires forall j :: |path| - n < j < |path| ==> path[j] != '.'
    ensures LastDot(path) == Some(|path| - n)
    ensures Extension(path) == path[|path| - n + 1..]
  {
    LowerCharFacts(path[|path| - n]);
  }

  /** A path ending in ".h", in any case, has the extension "h". */
  lemma ExtensionH(path: string)
    requires EndsWithIgnoringCase(path, ".h")
    ensures Lower(Extension(path)) == "h"
  {
    assert LowerChar(path[|path| - 2 + 0]) == ".h"[0] && LowerChar(path[|path| - 2 + 1]) == ".h"[1];
    DotSuffix(path, 2);
    assert Lower(path[|path| - 1..])[0] == 'h';
  }

  /** The five characters after the dot of ".hlsli" are not dots. */
  lemma HlsliTailHasNoDot(path: string)
    requires EndsWithIgnoringCase(path, ".hlsli")
    ensures forall j :: |path| - 6 < j < |path| ==> path[j] != '.'
  {
    var b := |path| - 6;
    forall j | b < j < |path|
      ensures path[j] != '.'
    {
      assert LowerChar(path[b + (j - b)]) == ".hlsli"[j - b];
    }
  }

  /** What follows the first `k` characters of a case-insensitive suffix
      lower-cases to the rest of that suffix. */
  lemma SuffixTailLowered(path: string, suffix: string, k: nat)
    requires EndsWithIgnoringCase(path, suffix) && k <= |suffix|
    ensures Lower(path[|path| - |suffix| + k..]) == suffix[k..]
  {
    var b := |path| - |suffix| + k;
    var t := path[b..];
    forall i | 0 <= i < |t|
      ensures Lower(t)[i] == suffix[k..][i]
    {
      assert t[i] == path[|path| - |suffix| + (k + i)];
    }
  }

  /** A path ending in ".hlsli", in any case, has the extension "hlsli". */
  lemma ExtensionHlsli(path: string)
    requires EndsWithIgnoringCase(path, ".hlsli")
    ensures Lower(Extension(path)) == "hlsli"
  {
    HlsliTailHasNoDot(path);
    assert LowerChar(path[|path| - 6 + 0]) == ".hlsli"[0];
    DotSuffix(path, 6);
    SuffixTailLowered(path, ".hlsli", 1);
    assert ".hlsli"[1..] == "hlsli";
  }

  /** A valid include path ends in one of the two suffixes. */
  lemma ValidHasSuffix(path: string)
    requires IsValidIncludePath(path)
    ensures EndsWithIgnoringCase(path, ".h") || EndsWithIgnoringCase(path, ".hlsli")
  {
    var k := LastDot(path).value;
    var e := path[k + 1..];
    LowerCharFacts(path[k]);
    if Lower(e) == "h" {
      assert k == |path| - 2 && Lower(e)[0] == LowerChar(path[|path| - 1]);
      assert EndsWithIgnoringCase(path, ".h");
    } else {
      assert k == |path| - 6;
      forall i | 0 <= i < 6
        ensures LowerChar(path[|path| - 6 + i]) == ".hlsli"[i]
      {
        if i > 0 {
          assert Lower(e)[i - 1] == LowerChar(path[|path| - 6 + i]);
        }
      }
    }
  }

  /** The extensions matched are exactly the two suffixes, in any case. */
  lemma ValidIncludeSuffix(path: string)
    ensures IsValidIncludePath(path) <==> EndsWithIgnoringCase(path, ".h") || EndsWithIgnoringCase(path, ".hlsli")
  {
    if IsValidIncludePath(path) {
      ValidHasSuffix(path);
    } else if EndsWithIgnoringCase(path, ".h") {
      ExtensionH(path);
    } else if EndsWithIgnoringCase(path, ".hlsli") {
      ExtensionHlsli(path);
    }
  }

  /** Case does not matter to the extension test. */
  lemma IncludePathIgnoresCase(path: string)
    ensures IsValidIncludePath(path) <==> IsValidIncludePath(Lower(path))
  {
    ValidIncludeSuffix(path);
    ValidIncludeSuffix(Lower(path));
    SuffixIgnoresCase(path, ".h");
    SuffixIgnoresCase(path, ".hlsli");
  }

  lemma SuffixIgnoresCase(path: string, suffix: string)
    ensures EndsWithIgnoringCase(path, suffix) <==> EndsWithIgnoringCase(Lower(path), suffix)
  {
    var low := Lower(path);
    forall i | 0 <= i < |path|
      ensures LowerChar(low[i]) == LowerChar(path[i])
    {
      LowerCharFacts(path[i]);
    }
  }

  // ---------------------------------------------------------------------
  // The include handler

  /** Two paths name the same file when they agree ignoring case. */
  predicate SameFile(a: string, b: string) {
    Lower(a) == Lower(b)
  }

  /** What `LoadSource` answers for one include request. */
  datatype IncludeOutcome = NotFound | AlreadyIncluded | InvalidExtension | Loaded | LoadFailed

  /** `LoadSource` on a list of included files: a missing file fails, one
      already included gets a blank blob, one with a foreign extension is
      refused, and a file that loads is appended. `present` and `loads` are
      the file system's and the loader's answers. */
  function Include(files: seq<string>, path: string, present: bool, loads: bool): (r: (IncludeOutcome, seq<string>))
    ensures r.0 == Loaded <==> present && (forall i :: 0 <= i < |files| ==> !SameFile(files[i], path)) && IsValidIncludePath(path) && loads
    ensures r.0 == AlreadyIncluded <==> present && exists i :: 0 <= i < |files| && SameFile(files[i], path)
    ensures r.1 == if r.0 == Loaded then files + [path] else files
  {
    if !present then (NotFound, files)
    else if exists i :: 0 <= i < |files| && SameFile(files[i], path) then (AlreadyIncluded, files)
    else if !IsValidIncludePath(path) then (InvalidExtension, files)
    else if loads then (Loaded, files + [path])
    else (LoadFailed, files)
  }

  /** No file appears twice. */
  predicate Distinct(files: seq<string>) {
    forall i, j :: 0 <= i < j < |files| ==> !SameFile(files[i], files[j])
  }

  /** One include request, with the file system's answers. */
  datatype IncludeRequest = IncludeRequest(Path: string, Exists: bool, Loads: bool)

  /** The outcomes of a run of requests and the list they leave. */
  function Replay(files: seq<string>, reqs: seq<IncludeRequest>): (seq<IncludeOutcome>, seq<string>)
    decreases |reqs|
  {
    if reqs == [] then ([], files)
    else
      var (o, next) := Include(files, reqs[0].Path, reqs[0].Exists, reqs[0].Loads);
      var (os, last) := Replay(next, reqs[1..]);
      ([o] + os, last)
  }

  /** The handler's list never holds a file twice. */
  lemma IncludeKeepsDistinct(files: seq<string>, path: string, present: bool, loads: bool)
    requires Distinct(files)
    ensures Distinct(Include(files, path, present, loads).1)
  {}

  /** Replayed requests only add to the list, and one outcome per request. */
  lemma {:induction false} ReplayGrows(files: seq<string>, reqs: seq<IncludeRequest>)
    ensures |Replay(files, reqs).0| == |reqs|
    ensures |Replay(files, reqs).1| >= |files| && Replay(files, reqs).1[..|files|] == files
    decreases |reqs|
  {
    if reqs != [] {
      var next := Include(files, reqs[0].Path, reqs[0].Exists, reqs[0].Loads).1;
      ReplayGrows(next, reqs[1..]);
    }
  }

  /** The first request's outcome, then those of the rest from the list it
      leaves. */
  lemma ReplayStep(files: seq<string>, reqs: seq<IncludeRequest>)
    requires reqs != []
    ensures var step := Include(files, reqs[0].Path, reqs[0].Exists, reqs[0].Loads);
            Replay(files, reqs).0 == [step.0] + Replay(step.1, reqs[1..]).0
  {}

  /** A file is inlined at most once: two requests that both load name
      different files. */
  lemma {:induction false} LoadedAtMostOnce(files: seq<string>, reqs: seq<IncludeRequest>, i: nat, j: nat)
    requires i < j < |reqs|
    requires |Replay(files, reqs).0| == |reqs|
    requires Replay(files, reqs).0[i] == Loaded && Replay(files, reqs).0[j] == Loaded
    ensures !SameFile(reqs[i].Path, reqs[j].Path)
    decreases |reqs|
  {
    var next := Include(files, reqs[0].Path, reqs[0].Exists, reqs[0].Loads).1;
    ReplayStep(files, reqs);
    ReplayGrows(next, reqs[1..]);
    if i == 0 {
      assert next == files + [reqs[0].Path];
      LoadedNotBefore(next, reqs[1..], j - 1, |files|);
    } else {
      LoadedAtMostOnce(next, reqs[1..], i - 1, j - 1);
    }
  }

  /** A request that loads names no file already on the list. */
  lemma {:induction false} LoadedNotBefore(files: seq<string>, reqs: seq<IncludeRequest>, j: nat, k: nat)
    requires j < |reqs| && k < |files|
    requires |Replay(files, reqs).0| == |reqs| && Replay(files, reqs).0[j] == Loaded
    ensures !SameFile(files[k], reqs[j].Path)
    decreases |reqs|
  {
    var next := Include(files, reqs[0].Path, reqs[0].Exists, reqs[0].Loads).1;
    ReplayStep(files, reqs);
    ReplayGrows(next, reqs[1..]);
    if j > 0 {
      assert next[k] == files[k];
      LoadedNotBefore(next, reqs[1..], j - 1, k);
    }
  }

  /** `CustomIncludeHandler`: the list of files inlined so far. */
  class IncludeHandler {
    var IncludedFiles: seq<string>

    ghost predicate Valid()
      reads this
    {
      Distinct(IncludedFiles)
    }

    constructor()
      ensures Valid() && IncludedFiles == []
    {
      IncludedFiles := [];
    }

    /** `LoadSource` for `path`; `present` and `loads` are the file system's
        and the loader's answers. */
    method LoadSource(path: string, present: bool, loads: bool) returns (outcome: IncludeOutcome)
      requires Valid()
      modifies this
      ensures Valid()
      ensures (outcome, IncludedFiles) == Include(old(IncludedFiles), path, present, loads)
    {
      if !present {
        return NotFound;
      }
      var found := false;
      var i := 0;
      while i < |IncludedFiles| && !found
        invariant 0 <= i <= |IncludedFiles|
        invariant found <==> exists j :: 0 <= j < i && SameFile(IncludedFiles[j], path)
      {
        found := Lower(IncludedFiles[i]) == Lower(path);
        i := i + 1;
      }
      if found {
        return AlreadyIncluded;
      }
      if !IsValidIncludePath(path) {
        return InvalidExtension;
      }
      if loads {
        IncludedFiles := IncludedFiles + [path];
        outcome := Loaded;
      } else {
        outcome := LoadFailed;
      }
    }

    method Reset()
      modifies this
      ensures Valid() && IncludedFiles == []
    {
      IncludedFiles := [];
    }
  }

  // ---------------------------------------------------------------------
  // Compile results and the shader cache

  datatype Hash128 = Hash128(Low: nat, High: nat)

  /** `CompileResult`; the reflection object is not modelled. */
  datatype CompileResult = CompileResult(ErrorMessage: string, Blob: Option<Bytes>, Includes: seq<string>, ShaderHash: Hash128, HasSymbols: bool, IsDebug: bool) {
    /** `Success`: there is a blob and no error message. */
    predicate Success() {
      Blob.Some? && |ErrorMessage| == 0
    }
  }

  /** A result before anything was filled in. */
  const EmptyResult := CompileResult("", None, [], Hash128(0, 0), false, false)

  /** The cache format version. */
  const CacheVersion: nat := 4

  /** What a cache file holds, in the order it is written. */
  datatype CacheRecord = CacheRecord(Version: nat, ShaderHash: Hash128, HasSymbols: bool, IsDebug: bool, Includes: seq<string>, Blob: Bytes)

  /** The files that exist, their last-write times, and what the cache files
      among them hold. A file holding no record reads as version 0. */
  datatype FileSystem = FileSystem(Times: map<string, nat>, Contents: map<string, CacheRecord>)

  function FileTime(fs: FileSystem, path: string): nat {
    if path in fs.Times then fs.Times[path] else 0
  }

  function Stored(fs: FileSystem, path: string): CacheRecord {
    if path in fs.Contents then fs.Contents[path] else CacheRecord(0, Hash128(0, 0), false, false, [], [])
  }

  /** `CompileJob`; the defines are kept as their texts. */
  datatype CompileJob = CompileJob(FilePath: string, EntryPoint: string, Target: string, Defines: seq<string>, IncludeDirs: seq<string>,
                                   MajVersion: nat, MinVersion: nat, EnableDebugMode: bool, EnableSymbols: bool)

  /** `Paths::Combine`, taken as joining with '/'. */
  function Combine(dir: string, file: string): string {
    dir + "/" + file
  }

  /** The first include directory holding `file`, joined with it. */
  function FirstExisting(dirs: seq<string>, file: string, fs: FileSystem): (r: Option<string>)
    ensures r.Some? ==> r.value in fs.Times
  {
    if dirs == [] then None
    else if Combine(dirs[0], file) in fs.Times then Some(Combine(dirs[0], file))
    else FirstExisting(dirs[1..], file, fs)
  }

  /** The path found is the first directory's that exists. */
  lemma {:induction false} FirstExistingIsFirst(dirs: seq<string>, file: string, fs: FileSystem, i: nat)
    requires i < |dirs| && Combine(dirs[i], file) in fs.Times
    requires forall j :: 0 <= j < i ==> Combine(dirs[j], file) !in fs.Times
    ensures FirstExisting(dirs, file, fs) == Some(Combine(dirs[i], file))
  {
    if i > 0 {
      assert Combine(dirs[0], file) !in fs.Times;
      FirstExistingIsFirst(dirs[1..], file, fs, i - 1);
    }
  }

  /** Nothing is found exactly when no directory holds the file. */
  lemma {:induction false} FirstExistingNone(dirs: seq<string>, file: string, fs: FileSystem)
    ensures FirstExisting(dirs, file, fs).None? <==> forall i :: 0 <= i < |dirs| ==> Combine(dirs[i], file) !in fs.Times
  {
    if dirs != [] {
      FirstExistingNone(dirs[1..], file, fs);
      assert forall i :: 1 <= i < |dirs| ==> dirs[i] == dirs[1..][i - 1];
    }
  }

  /** `ResolveFilePath`: tries the include directories in order. */
  method ResolveFilePath(job: CompileJob, fs: FileSystem) returns (found: bool, outPath: string)
    ensures found <==> FirstExisting(job.IncludeDirs, job.FilePath, fs).Some?
    ensures outPath == FirstExisting(job.IncludeDirs, job.FilePath, fs).GetOr("")
  {
    for i := 0 to |job.IncludeDirs|
      invariant FirstExisting(job.IncludeDirs, job.FilePath, fs) == FirstExisting(job.IncludeDirs[i..], job.FilePath, fs)
    {
      outPath := Combine(job.IncludeDirs[i], job.FilePath);
      if outPath in fs.Times {
        return true, outPath;
      }
      assert job.IncludeDirs[i..][1..] == job.IncludeDirs[i + 1..];
    }
    outPath := "";
    found := false;
  }

  /** Every path in `paths` is not newer than `time`. */
  predicate NotNewer(fs: FileSystem, paths: seq<string>, time: nat) {
    forall i :: 0 <= i < |paths| ==> FileTime(fs, paths[i]) <= time
  }

  /** Whether the cache file at `cachePath` may stand in for compiling
      `job`: it exists, the source resolves and is not newer, the version is
      current, the symbol and debug flags match, and no include is newer. */
  predicate CacheAccepts(cachePath: string, job: CompileJob, fs: FileSystem) {
    var rec := Stored(fs, cachePath);
    var cacheTime := FileTime(fs, cachePath);
    var source := FirstExisting(job.IncludeDirs, job.FilePath, fs);
    cachePath in fs.Times && source.Some? && FileTime(fs, source.value) <= cacheTime
    && rec.Version == CacheVersion && rec.HasSymbols == job.EnableSymbols && rec.IsDebug == job.EnableDebugMode
    && NotNewer(fs, rec.Includes, cacheTime)
  }

  /** The result an accepted cache file gives. */
  function FromCache(rec: CacheRecord): CompileResult {
    CompileResult("", Some(rec.Blob), rec.Includes, rec.ShaderHash, rec.HasSymbols, rec.IsDebug)
  }

  /** The fields `TryLoadFromCache` has written into the result when it
      stops: nothing before the version check, the hash and symbol flag,
      then the debug flag, then the include list, then the blob. */
  function PartialResult(rec: CacheRecord, job: CompileJob): CompileResult {
    if rec.Version != CacheVersion then EmptyResult
    else if rec.HasSymbols != job.EnableSymbols then EmptyResult.(ShaderHash := rec.ShaderHash, HasSymbols := rec.HasSymbols)
    else if rec.IsDebug != job.EnableDebugMode then EmptyResult.(ShaderHash := rec.ShaderHash, HasSymbols := rec.HasSymbols, IsDebug := rec.IsDebug)
    else EmptyResult.(ShaderHash := rec.ShaderHash, HasSymbols := rec.HasSymbols, IsDebug := rec.IsDebug, Includes := rec.Includes)
  }

  /** `TryLoadFromCache`: whether the cache was accepted, and the result
      object as it leaves it. */
  function CacheLookup(cachePath: string, job: CompileJob, fs: FileSystem): (r: (bool, CompileResult))
    ensures r.0 <==> CacheAccepts(cachePath, job, fs)
    ensures r.0 ==> r.1 == FromCache(Stored(fs, cachePath)) && r.1.Success()
  {
    var rec := Stored(fs, cachePath);
    var source := FirstExisting(job.IncludeDirs, job.FilePath, fs);
    if cachePath !in fs.Times || source.None? || FileTime(fs, source.value) > FileTime(fs, cachePath) then (false, EmptyResult)
    else if CacheAccepts(cachePath, job, fs) then (true, FromCache(rec))
    else (false, PartialResult(rec, job))
  }

  /** `TryLoadFromCache`, with the include times tested one by one. */
  method TryLoadFromCache(cachePath: string, job: CompileJob, fs: FileSystem) returns (loaded: bool, result: CompileResult)
    ensures (loaded, result) == CacheLookup(cachePath, job, fs)
  {
    result := EmptyResult;
    if cachePath !in fs.Times {
      return false, result;
    }
    var found, shaderFullPath := ResolveFilePath(job, fs);
    if !found {
      return false, result;
    }
    var cacheTime := FileTime(fs, cachePath);
    if FileTime(fs, shaderFullPath) > cacheTime {
      return false, result;
    }
    var rec := Stored(fs, cachePath);
    if rec.Version != CacheVersion {
      return false, result;
    }
    result := result.(ShaderHash := rec.ShaderHash, HasSymbols := rec.HasSymbols);
    if result.HasSymbols != job.EnableSymbols {
      return false, result;
    }
    result := result.(IsDebug := rec.IsDebug);
    if result.IsDebug != job.EnableDebugMode {
      return false, result;
    }
    result := result.(Includes := rec.Includes);
    for i := 0 to |result.Includes|
      invariant result.Includes == rec.Includes
      invariant NotNewer(fs, rec.Includes[..i], cacheTime)
    {
      if FileTime(fs, result.Includes[i]) > cacheTime {
        assert !NotNewer(fs, rec.Includes, cacheTime);
        return false, result;
      }
    }
    assert rec.Includes[..|rec.Includes|] == rec.Includes;
    result := result.(Blob := Some(rec.Blob));
    loaded := true;
  }

  /** `SaveToCache`: the record written for a result. */
  function SaveToCache(result: CompileResult): (r: CacheRecord)
    requires result.Blob.Some?
    ensures r.Version == CacheVersion
    ensures result.Success() ==> FromCache(r) == result
  {
    CacheRecord(CacheVersion, result.ShaderHash, result.HasSymbols, result.IsDebug, result.Includes, result.Blob.value)
  }

  /** The file system after the cache file was written at `time`. */
  function Saved(fs: FileSystem, cachePath: string, result: CompileResult, time: nat): FileSystem
    requires result.Blob.Some?
  {
    FileSystem(fs.Times[cachePath := time], fs.Contents[cachePath := SaveToCache(result)])
  }

  /** A result written to the cache reads back as itself for the same job,
      as long as the source and its includes are not newer than the file. */
  lemma CacheRoundTrip(job: CompileJob, cachePath: string, fs: FileSystem, result: CompileResult, time: nat)
    requires result.Success()
    requires result.HasSymbols == job.EnableSymbols && result.IsDebug == job.EnableDebugMode
    requires FirstExisting(job.IncludeDirs, job.FilePath, Saved(fs, cachePath, result, time)).Some?
    requires forall p :: p in fs.Times ==> fs.Times[p] <= time
    ensures CacheLookup(cachePath, job, Saved(fs, cachePath, result, time)) == (true, result)
  {
    var fs2 := Saved(fs, cachePath, result, time);
    assert forall p :: FileTime(fs2, p) <= time;
  }

  /** What one compiler invocation produced: whether the source loaded, the
      error text, the object, the validator's message when validation
      failed, the hash output and the files the include handler loaded. */
  datatype DxcRun = DxcRun(SourceLoads: bool, Errors: string, Object: Bytes, ValidationError: Option<string>, Hash: Option<Hash128>, IncludedFiles: seq<string>)

  /** `Compile` continuing from the result object `start`: as written,
      `start` is whatever a rejected cache lookup left in it. */
  function CompileFrom(start: CompileResult, job: CompileJob, fs: FileSystem, dxc: DxcRun): (r: CompileResult)
    ensures var source := FirstExisting(job.IncludeDirs, job.FilePath, fs);
            r.Includes == if source.Some? && dxc.SourceLoads && |dxc.Errors| == 0 && dxc.ValidationError.None?
                          then start.Includes + [source.value] + dxc.IncludedFiles
                          else start.Includes
    ensures r.Blob == start.Blob || r.Blob == Some(dxc.Object)
  {
    match FirstExisting(job.IncludeDirs, job.FilePath, fs)
    case None => start.(ErrorMessage := "Failed to open file '" + job.FilePath + "'")
    case Some(fullPath) =>
      if !dxc.SourceLoads then start.(ErrorMessage := "Failed to load file '" + fullPath + "'")
      else
        var flagged := start.(HasSymbols := job.EnableSymbols, IsDebug := job.EnableDebugMode);
        if |dxc.Errors| > 0 then flagged.(ErrorMessage := dxc.Errors)
        else
          var withBlob := flagged.(Blob := Some(dxc.Object));
          if dxc.ValidationError.Some? then withBlob.(ErrorMessage := dxc.ValidationError.value)
          else
            var hashed := if dxc.Hash.Some? then withBlob.(ShaderHash := dxc.Hash.value) else withBlob;
            hashed.(Includes := hashed.Includes + [fullPath] + dxc.IncludedFiles)
  }

  /** `Compile` as written: a rejected cache lookup's partial result is
      compiled into. */
  function CompileAsWritten(job: CompileJob, cachePath: string, fs: FileSystem, dxc: DxcRun): CompileResult {
    var (loaded, partial) := CacheLookup(cachePath, job, fs);
    if loaded then partial else CompileFrom(partial, job, fs, dxc)
  }

  /** `Compile` starting from an empty result when the cache is rejected. */
  function Compile(job: CompileJob, cachePath: string, fs: FileSystem, dxc: DxcRun): (r: CompileResult)
    ensures CacheAccepts(cachePath, job, fs) ==> r == FromCache(Stored(fs, cachePath))
    ensures !CacheAccepts(cachePath, job, fs) && r.Includes != [] ==>
              FirstExisting(job.IncludeDirs, job.FilePath, fs).Some?
              && r.Includes[0] == FirstExisting(job.IncludeDirs, job.FilePath, fs).value
  {
    var (loaded, cached) := CacheLookup(cachePath, job, fs);
    if loaded then cached else CompileFrom(EmptyResult, job, fs, dxc)
  }

  /** An accepted cache gives the stored result; otherwise the compile
      succeeds exactly when the source resolves and loads, the compiler
      reports no error and validation reports no message, and a success
      holds the compiler's object and lists the source file first, then the
      headers the include handler loaded. */
  lemma CompileOutcome(job: CompileJob, cachePath: string, fs: FileSystem, dxc: DxcRun)
    ensures var r := Compile(job, cachePath, fs, dxc);
            CacheAccepts(cachePath, job, fs) ==> r == FromCache(Stored(fs, cachePath)) && r.Success()
    ensures var r := Compile(job, cachePath, fs, dxc);
            !CacheAccepts(cachePath, job, fs) ==>
              (r.Success() <==> FirstExisting(job.IncludeDirs, job.FilePath, fs).Some? && dxc.SourceLoads && |dxc.Errors| == 0
                                && (dxc.ValidationError.Some? ==> |dxc.ValidationError.value| == 0))
    ensures var r := Compile(job, cachePath, fs, dxc);
            !CacheAccepts(cachePath, job, fs) && r.Success() && dxc.ValidationError.None? ==>
              FirstExisting(job.IncludeDirs, job.FilePath, fs).Some?
              && r.Blob == Some(dxc.Object) && r.HasSymbols == job.EnableSymbols && r.IsDebug == job.EnableDebugMode
              && r.Includes == [FirstExisting(job.IncludeDirs, job.FilePath, fs).value] + dxc.IncludedFiles
  {}

  /** As written, a cache rejected for a newer include leaves its include
      list in the result, and the compile appends the fresh list after it:
      the source file is listed twice and the stale header stays listed. */
  lemma StaleIncludesKept()
    ensures var job := CompileJob("a.hlsl", "main", "cs", [], ["d"], 6, 6, false, false);
            var rec := CacheRecord(CacheVersion, Hash128(0, 0), false, false, ["d/a.hlsl", "d/old.hlsli"], []);
            var fs := FileSystem(map["c.bin" := 1, "d/a.hlsl" := 1, "d/old.hlsli" := 2], map["c.bin" := rec]);
            var dxc := DxcRun(true, "", [], None, None, []);
            CompileAsWritten(job, "c.bin", fs, dxc).Includes == ["d/a.hlsl", "d/old.hlsli", "d/a.hlsl"]
            && Compile(job, "c.bin", fs, dxc).Includes == ["d/a.hlsl"]
  {
    var job := CompileJob("a.hlsl", "main", "cs", [], ["d"], 6, 6, false, false);
    var rec := CacheRecord(CacheVersion, Hash128(0, 0), false, false, ["d/a.hlsl", "d/old.hlsli"], []);
    var fs := FileSystem(map["c.bin" := 1, "d/a.hlsl" := 1, "d/old.hlsli" := 2], map["c.bin" := rec]);
    assert Combine("d", "a.hlsl") == "d/a.hlsl";
    assert FirstExisting(job.IncludeDirs, job.FilePath, fs) == Some("d/a.hlsl");
    assert !NotNewer(fs, rec.Includes, 1) by {
      assert FileTime(fs, rec.Includes[1]) == 2;
    }
    assert !CacheAccepts("c.bin", job, fs);
  }

  // ---------------------------------------------------------------------
  // The shader manager

  /** `GetEntryPointHash`: the entry point and define texts identify a
      shader within a file; hashes are modelled by the strings themselves. */
  datatype EntryKey = EntryKey(EntryPoint: string, Defines: seq<string>)

  /** A `Shader` object. */
  datatype ShaderObject = ShaderObject(Type: ShaderType, EntryPoint: string, Defines: seq<string>, ByteCode: Bytes, Hash: Hash128)

  /** The compile job `GetShader` builds. */
  function JobFor(path: string, t: ShaderType, entryPoint: string, defines: seq<string>, includeDirs: seq<string>,
                  major: nat, minor: nat, debug: bool, symbols: bool): (job: CompileJob)
    ensures job.Target == GetShaderTarget(t) && job.FilePath == path && job.EntryPoint == entryPoint
  {
    CompileJob(path, entryPoint, GetShaderTarget(t), defines, includeDirs, major, minor, debug, symbols)
  }

  /** `ShaderManager`: shader objects are kept in `Shaders` and named by
      their index, which stands for the object's address. */
  class ShaderManager {
    const ShaderModelMajor: nat
    const ShaderModelMinor: nat
    var IncludeDirs: seq<string>
    var Shaders: seq<ShaderObject>
    var FilepathToObjectMap: map<string, map<EntryKey, nat>>
    var IncludeDependencyMap: map<string, set<string>>

    /** Every shader a (file, key) pair names exists and was built for that
        entry point and those defines. */
    ghost predicate Valid()
      reads this
    {
      Consistent(FilepathToObjectMap, Shaders)
    }

    constructor(major: nat, minor: nat)
      ensures Valid()
      ensures ShaderModelMajor == major && ShaderModelMinor == minor
      ensures IncludeDirs == [] && Shaders == [] && FilepathToObjectMap == map[] && IncludeDependencyMap == map[]
    {
      ShaderModelMajor := major;
      ShaderModelMinor := minor;
      IncludeDirs := [];
      Shaders := [];
      FilepathToObjectMap := map[];
      IncludeDependencyMap := map[];
    }

    /** `AddIncludeDir`; the file watcher is not modelled. */
    method AddIncludeDir(dir: string)
      modifies this
      ensures IncludeDirs == old(IncludeDirs) + [dir]
      ensures Shaders == old(Shaders) && FilepathToObjectMap == old(FilepathToObjectMap) && IncludeDependencyMap == old(IncludeDependencyMap)
    {
      IncludeDirs := IncludeDirs + [dir];
    }

    /** The shader cached for `path` and `key`. */
    function Lookup(path: string, key: EntryKey): (r: Option<nat>)
      reads this
      ensures r.Some? <==> path in FilepathToObjectMap && key in FilepathToObjectMap[path]
      ensures r.Some? ==> r.value == FilepathToObjectMap[path][key]
    {
      if path in FilepathToObjectMap && key in FilepathToObjectMap[path] then Some(FilepathToObjectMap[path][key]) else None
    }

    /** Records that `path` depends on every file in `includes`. */
    method AddDependencies(includes: seq<string>, path: string)
      modifies this
      ensures forall inc :: inc in includes ==> inc in IncludeDependencyMap && path in IncludeDependencyMap[inc]
      ensures forall inc :: inc in old(IncludeDependencyMap) ==> inc in IncludeDependencyMap && old(IncludeDependencyMap)[inc] <= IncludeDependencyMap[inc]
      ensures forall inc :: inc in IncludeDependencyMap ==> inc in includes || inc in old(IncludeDependencyMap)
      ensures forall inc :: inc in IncludeDependencyMap ==> IncludeDependencyMap[inc] <= (if inc in old(IncludeDependencyMap) then old(IncludeDependencyMap)[inc] else {}) + {path}
      ensures IncludeDependencyMap == AddedDependencies(old(IncludeDependencyMap), includes, path)
      ensures Shaders == old(Shaders) && FilepathToObjectMap == old(FilepathToObjectMap) && IncludeDirs == old(IncludeDirs)
    {
      for i := 0 to |includes|
        invariant IncludeDependencyMap == AddedDependencies(old(IncludeDependencyMap), includes[..i], path)
        invariant Shaders == old(Shaders) && FilepathToObjectMap == old(FilepathToObjectMap) && IncludeDirs == old(IncludeDirs)
      {
        var inc := includes[i];
        var deps := if inc in IncludeDependencyMap then IncludeDependencyMap[inc] else {};
        IncludeDependencyMap := IncludeDependencyMap[inc := deps + {path}];
        assert includes[..i + 1][..i] == includes[..i];
      }
      assert includes[..|includes|] == includes;
    }

    /** `GetShader`: the cached shader for the file, entry point and defines
        unless `force` is set; otherwise the job is compiled and, on success,
        stored into the existing object or a new one. `debug` and `symbols`
        are the command-line switches, `cachePath`, `fs` and `dxc` the
        compile's inputs. */
    method GetShader(path: string, t: ShaderType, entryPoint: Option<string>, defines: seq<string>, force: bool,
                     debug: bool, symbols: bool, cachePath: string, fs: FileSystem, dxc: DxcRun) returns (shader: Option<nat>)
      requires Valid()
      modifies this
      ensures Valid()
      ensures IncludeDirs == old(IncludeDirs)
      ensures var key := EntryKey(entryPoint.GetOr(""), defines);
              !force && old(Lookup(path, key)).Some? ==>
                shader == old(Lookup(path, key)) && Shaders == old(Shaders)
                && FilepathToObjectMap == old(FilepathToObjectMap) && IncludeDependencyMap == old(IncludeDependencyMap)
      ensures var key := EntryKey(entryPoint.GetOr(""), defines);
              var result := Compile(JobFor(path, t, key.EntryPoint, defines, old(IncludeDirs), ShaderModelMajor, ShaderModelMinor, debug, symbols), cachePath, fs, dxc);
              var id := old(Lookup(path, key)).GetOr(|old(Shaders)|);
              (force || old(Lookup(path, key)).None?) ==>
                (!result.Success() ==>
                  shader == None && Shaders == old(Shaders) && IncludeDependencyMap == old(IncludeDependencyMap)
                  && FilepathToObjectMap == old(FilepathToObjectMap)[path := FileEntry(old(FilepathToObjectMap), path)])
                && (result.Success() ==>
                  shader == Some(id)
                  && Shaders == Placed(old(Shaders), id, ShaderObject(t, key.EntryPoint, defines, result.Blob.value, result.ShaderHash))
                  && FilepathToObjectMap == Named(old(FilepathToObjectMap), path, key, id)
                  && (forall inc :: inc in result.Includes ==> inc in IncludeDependencyMap && path in IncludeDependencyMap[inc])
                  && IncludeDependencyMap == AddedDependencies(old(IncludeDependencyMap), result.Includes, path))
    {
      var entry := entryPoint.GetOr("");
      var key := EntryKey(entry, defines);
      var shaderMap := OpenFile(path);
      var existing := if key in shaderMap then Some(shaderMap[key]) else None;
      assert existing == old(Lookup(path, key));
      if !force && existing.Some? {
        assert FilepathToObjectMap == old(FilepathToObjectMap);
        return existing;
      }
      var job := JobFor(path, t, entry, defines, IncludeDirs, ShaderModelMajor, ShaderModelMinor, debug, symbols);
      var result := Compile(job, cachePath, fs, dxc);
      ghost var id := existing.GetOr(|Shaders|);
      NamedAfterOpen(old(FilepathToObjectMap), path, key, id);
      shader := Install(path, t, key, existing, result);
    }

    /** After a compile: a failure changes nothing; a success stores the
        shader into the object `existing` names, or a new one, and records
        the files it depends on. */
    method Install(path: string, t: ShaderType, key: EntryKey, existing: Option<nat>, result: CompileResult)
      returns (shader: Option<nat>)
      requires Valid() && path in FilepathToObjectMap && existing == Lookup(path, key)
      modifies this
      ensures Valid() && IncludeDirs == old(IncludeDirs)
      ensures !result.Success() ==>
                shader == None && Shaders == old(Shaders) && FilepathToObjectMap == old(FilepathToObjectMap)
                && IncludeDependencyMap == old(IncludeDependencyMap)
      ensures result.Success() ==>
                var id := existing.GetOr(|old(Shaders)|);
                shader == Some(id)
                && Shaders == Placed(old(Shaders), id, ShaderObject(t, key.EntryPoint, key.Defines, result.Blob.value, result.ShaderHash))
                && FilepathToObjectMap == Named(old(FilepathToObjectMap), path, key, id)
                && (forall inc :: inc in result.Includes ==> inc in IncludeDependencyMap && path in IncludeDependencyMap[inc])
                && IncludeDependencyMap == AddedDependencies(old(IncludeDependencyMap), result.Includes, path)
    {
      if !result.Success() {
        return None;
      }
      var id := existing.GetOr(|Shaders|);
      StoreShader(path, key, id, ShaderObject(t, key.EntryPoint, key.Defines, result.Blob.value, result.ShaderHash));
      AddDependencies(result.Includes, path);
      shader := Some(id);
    }

    /** `m_FilepathToObjectMap[path]`: the file's shader map, created empty
        when missing. */
    method OpenFile(path: string) returns (shaderMap: map<EntryKey, nat>)
      requires Valid()
      modifies this
      ensures Valid() && shaderMap == FileEntry(old(FilepathToObjectMap), path)
      ensures FilepathToObjectMap == old(FilepathToObjectMap)[path := shaderMap]
      ensures Shaders == old(Shaders) && IncludeDependencyMap == old(IncludeDependencyMap) && IncludeDirs == old(IncludeDirs)
    {
      ConsistentOpen(FilepathToObjectMap, Shaders, path);
      shaderMap := FileEntry(FilepathToObjectMap, path);
      FilepathToObjectMap := FilepathToObjectMap[path := shaderMap];
    }

    /** Puts `obj` at `id` and names it by `path` and `key`. */
    method StoreShader(path: string, key: EntryKey, id: nat, obj: ShaderObject)
      requires Valid() && path in FilepathToObjectMap
      requires id <= |Shaders| && (id < |Shaders| ==> key in FilepathToObjectMap[path] && FilepathToObjectMap[path][key] == id)
      requires obj.EntryPoint == key.EntryPoint && obj.Defines == key.Defines
      modifies this
      ensures Valid()
      ensures Shaders == Placed(old(Shaders), id, obj)
      ensures FilepathToObjectMap == Named(old(FilepathToObjectMap), path, key, id)
      ensures IncludeDependencyMap == old(IncludeDependencyMap) && IncludeDirs == old(IncludeDirs)
    {
      ConsistentStore(FilepathToObjectMap, Shaders, path, key, id, obj);
      Shaders := Placed(Shaders, id, obj);
      FilepathToObjectMap := Named(FilepathToObjectMap, path, key, id);
    }
  }

  /** Every shader a (file, key) pair names exists and was built for that
      entry point and those defines. */
  ghost predicate Consistent(m: map<string, map<EntryKey, nat>>, shaders: seq<ShaderObject>) {
    forall p, k {:trigger m[p][k]} :: p in m && k in m[p] ==>
      m[p][k] < |shaders| && shaders[m[p][k]].EntryPoint == k.EntryPoint && shaders[m[p][k]].Defines == k.Defines
  }

  /** Opening a file's map keeps the maps consistent. */
  lemma ConsistentOpen(m: map<string, map<EntryKey, nat>>, shaders: seq<ShaderObject>, path: string)
    requires Consistent(m, shaders)
    ensures Consistent(m[path := FileEntry(m, path)], shaders)
  {
    var m2 := m[path := FileEntry(m, path)];
    forall p: string, k: EntryKey | p in m2 && k in m2[p]
      ensures m2[p][k] < |shaders| && shaders[m2[p][k]].EntryPoint == k.EntryPoint && shaders[m2[p][k]].Defines == k.Defines
    {
      assert p in m && m2[p] == m[p];
      var oid := m[p][k];
      assert oid < |shaders| && shaders[oid].EntryPoint == k.EntryPoint && shaders[oid].Defines == k.Defines;
    }
  }

  /** Storing a shader built for `key` at the slot `key` already names, or
      at a new slot, keeps the maps consistent. */
  lemma ConsistentStore(m: map<string, map<EntryKey, nat>>, shaders: seq<ShaderObject>, path: string, key: EntryKey, id: nat, obj: ShaderObject)
    requires Consistent(m, shaders)
    requires id <= |shaders| && (id < |shaders| ==> path in m && key in m[path] && m[path][key] == id)
    requires obj.EntryPoint == key.EntryPoint && obj.Defines == key.Defines
    ensures Consistent(Named(m, path, key, id), Placed(shaders, id, obj))
  {
    var m2, s2 := Named(m, path, key, id), Placed(shaders, id, obj);
    forall p: string, k: EntryKey | p in m2 && k in m2[p]
      ensures m2[p][k] < |s2| && s2[m2[p][k]].EntryPoint == k.EntryPoint && s2[m2[p][k]].Defines == k.Defines
    {
      if (p, k) != (path, key) {
        assert p in m && k in m[p] && m2[p][k] == m[p][k];
        var oid := m[p][k];
        assert oid < |shaders| && shaders[oid].EntryPoint == k.EntryPoint && shaders[oid].Defines == k.Defines;
        if oid == id {
          var same := m[path][key];
          assert shaders[same].EntryPoint == key.EntryPoint && shaders[same].Defines == key.Defines;
        }
      }
    }
  }

  /** The shader map of a file, created empty on first use as `operator[]`
      does. */
  function FileEntry(m: map<string, map<EntryKey, nat>>, path: string): map<EntryKey, nat> {
    if path in m then m[path] else map[]
  }

  /** The maps after `key` in the file `path` was made to name `id`. */
  function Named(m: map<string, map<EntryKey, nat>>, path: string, key: EntryKey, id: nat): (r: map<string, map<EntryKey, nat>>)
    ensures path in r && key in r[path] && r[path][key] == id
  {
    var entry: map<EntryKey, nat> := FileEntry(m, path)[key := id];
    m[path := entry]
  }

  /** Opening the file's map first makes no difference to naming. */
  lemma NamedAfterOpen(m: map<string, map<EntryKey, nat>>, path: string, key: EntryKey, id: nat)
    ensures Named(m[path := FileEntry(m, path)], path, key, id) == Named(m, path, key, id)
  {}

  /** The shader list after `obj` is stored at `id`: an existing object is
      overwritten in place, otherwise it is appended. */
  function Placed(shaders: seq<ShaderObject>, id: nat, obj: ShaderObject): (r: seq<ShaderObject>)
    requires id <= |shaders|
    ensures |r| == if id < |shaders| then |shaders| else |shaders| + 1
    ensures r[id] == obj && forall i :: 0 <= i < |shaders| && i != id ==> r[i] == shaders[i]
  {
    if id < |shaders| then shaders[id := obj] else shaders + [obj]
  }

  /** The dependency map after `path` is recorded as depending on every file
      in `includes`, one include at a time: each include's set gains `path`,
      every other set is kept as it was. */
  function AddedDependencies(m: map<string, set<string>>, includes: seq<string>, path: string): (r: map<string, set<string>>)
    ensures forall inc :: inc in r <==> inc in m || inc in includes
    ensures forall inc :: inc in r ==>
              r[inc] == (if inc in m then m[inc] else {}) + (if inc in includes then {path} else {})
    decreases |includes|
  {
    if includes == [] then m
    else
      var earlier := AddedDependencies(m, includes[..|includes| - 1], path);
      var inc := includes[|includes| - 1];
      earlier[inc := (if inc in earlier then earlier[inc] else {}) + {path}]
  }
}
