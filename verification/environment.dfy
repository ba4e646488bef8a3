/**
 The environment setup of yunetas (`setup_yuneta_environment`) over a
 snapshot of the filesystem: check the base directory and its two source
 files, create `outputs/include` next to the base directory, and regenerate
 `yuneta_version.h` and `yuneta_config.h` from `YUNETA_VERSION` and
 `.config` when they are missing or older than their sources.
 */
module Environment {
  import opened Wrappers
  import opened Text
  import opened Kconfig
  import opened Paths

  /** What a path names: a directory, or a regular file with its
      modification time and its text. */
  datatype Node = Dir | File(mtime: int, text: string)

  /** A snapshot of the filesystem: what each existing path names. */
  type Fs = map<string, Node>

  predicate IsDir(fs: Fs, p: string) {
    p in fs && fs[p].Dir?
  }

  predicate IsFile(fs: Fs, p: string) {
    p in fs && fs[p].File?
  }

  /** The two generated headers. */
  datatype Header = VersionHeader | ConfigHeader {
    /** The file in the base directory the header is generated from. */
    function SourceName(): string {
      match this
      case VersionHeader => "YUNETA_VERSION"
      case ConfigHeader => ".config"
    }

    /** The header's file name in the include directory. */
    function FileName(): string {
      match this
      case VersionHeader => "yuneta_version.h"
      case ConfigHeader => "yuneta_config.h"
    }

    function Title(): string {
      match this
      case VersionHeader => " *  Yuneta Version\n"
      case ConfigHeader => " *  Yuneta Configuration\n"
    }

    function Hint(): string {
      match this
      case VersionHeader => " *  Set version in YUNETA_VERSION file.\n"
      case ConfigHeader => " *  Set configuration in .config file.\n"
    }

    /** The fixed comment and `#pragma once` every header starts with. */
    function Banner(): string {
      "/*\n" + Title() + " *  Automatically generated file. DO NOT EDIT.\n" + Hint()
      + " *\n *  Copyright (c) 2024, ArtGins\n */\n#pragma once\n\n"
    }
  }

  /* ----- Layout ----- */

  function SourcePath(base: string, h: Header): string {
    Join(base, h.SourceName())
  }

  /** `outputs` next to the base directory. */
  function OutputsDir(base: string): string {
    Join(Dirname(base), "outputs")
  }

  function IncludeDir(base: string): string {
    Join(OutputsDir(base), "include")
  }

  function HeaderPath(base: string, h: Header): string {
    Join(IncludeDir(base), h.FileName())
  }

  /** No name the setup joins holds a slash. */
  lemma NamesWithoutSlash(h: Header)
    ensures '/' !in h.SourceName() && '/' !in h.FileName()
    ensures '/' !in "outputs" && '/' !in "include"
  {
  }

  /** The outputs directory is a sibling of the base directory. */
  lemma OutputsLayout(base: string)
    ensures Dirname(OutputsDir(base)) == Dirname(base)
    ensures Basename(OutputsDir(base)) == "outputs"
    ensures DirShaped(OutputsDir(base))
  {
    var d := Dirname(base);
    NamesWithoutSlash(VersionHeader);
    DirnameJoin(d, "outputs");
    BasenameJoin(d, "outputs");
    JoinEnd(d, "outputs", 1);
  }

  /** The include directory is inside the outputs directory. */
  lemma IncludeLayout(base: string)
    ensures Dirname(IncludeDir(base)) == OutputsDir(base)
    ensures Basename(IncludeDir(base)) == "include"
    ensures DirShaped(IncludeDir(base))
  {
    var out := OutputsDir(base);
    OutputsLayout(base);
    NamesWithoutSlash(VersionHeader);
    DirnameJoin(out, "include");
    BasenameJoin(out, "include");
    JoinEnd(out, "include", 1);
  }

  /** Each header is inside the include directory, under its own name. */
  lemma HeaderLayout(base: string, h: Header)
    ensures Dirname(HeaderPath(base, h)) == IncludeDir(base)
    ensures Basename(HeaderPath(base, h)) == h.FileName()
  {
    var inc := IncludeDir(base);
    IncludeLayout(base);
    NamesWithoutSlash(h);
    DirnameJoin(inc, h.FileName());
    BasenameJoin(inc, h.FileName());
  }

  /** The source files are inside the base directory, unless it is written
      with a trailing slash. */
  lemma SourceLayout(base: string, h: Header)
    requires DirShaped(base)
    ensures Dirname(SourcePath(base, h)) == base
    ensures Basename(SourcePath(base, h)) == h.SourceName()
  {
    NamesWithoutSlash(h);
    DirnameJoin(base, h.SourceName());
    BasenameJoin(base, h.SourceName());
  }

  /** The last characters of a join are those of the name joined last. */
  lemma JoinEnd(a: string, b: string, k: nat)
    requires 0 < k <= |b|
    ensures k <= |Join(a, b)| && Join(a, b)[|Join(a, b)| - k] == b[|b| - k]
  {
    var r := Join(a, b);
    assert r[|r| - |b|..][|b| - k] == r[|r| - k];
  }

  /** Each path the setup touches has the name joined last as its
      basename. */
  lemma Basenames(base: string)
    ensures Basename(SourcePath(base, VersionHeader)) == "YUNETA_VERSION"
    ensures Basename(SourcePath(base, ConfigHeader)) == ".config"
    ensures Basename(OutputsDir(base)) == "outputs"
    ensures Basename(IncludeDir(base)) == "include"
    ensures Basename(HeaderPath(base, VersionHeader)) == "yuneta_version.h"
    ensures Basename(HeaderPath(base, ConfigHeader)) == "yuneta_config.h"
  {
    NamesWithoutSlash(VersionHeader);
    NamesWithoutSlash(ConfigHeader);
    BasenameJoin(base, "YUNETA_VERSION");
    BasenameJoin(base, ".config");
    BasenameJoin(Dirname(base), "outputs");
    BasenameJoin(OutputsDir(base), "include");
    BasenameJoin(IncludeDir(base), "yuneta_version.h");
    BasenameJoin(IncludeDir(base), "yuneta_config.h");
  }

  /** The paths one run of the setup works with. */
  datatype Layout = Layout(base: string, versionSource: string, configSource: string,
                           outputsDir: string, includeDir: string,
                           versionHeader: string, configHeader: string)
  {
    /** The file a header is generated from. */
    function Source(h: Header): string {
      match h
      case VersionHeader => versionSource
      case ConfigHeader => configSource
    }

    /** Where a header is written. */
    function Target(h: Header): string {
      match h
      case VersionHeader => versionHeader
      case ConfigHeader => configHeader
    }

    /** The paths a run may create or write. */
    function Touched(): set<string> {
      {outputsDir, includeDir, versionHeader, configHeader}
    }

    /** The six paths a run reads or writes are six different paths. */
    predicate Separate() {
      && versionSource != configSource && versionSource != outputsDir && versionSource != includeDir
      && versionSource != versionHeader && versionSource != configHeader
      && configSource != outputsDir && configSource != includeDir
      && configSource != versionHeader && configSource != configHeader
      && outputsDir != includeDir && outputsDir != versionHeader && outputsDir != configHeader
      && includeDir != versionHeader && includeDir != configHeader
      && versionHeader != configHeader
    }
  }

  /** The paths `setup_yuneta_environment` derives from the base directory. */
  function LayoutOf(base: string): Layout {
    Layout(base, SourcePath(base, VersionHeader), SourcePath(base, ConfigHeader),
           OutputsDir(base), IncludeDir(base),
           HeaderPath(base, VersionHeader), HeaderPath(base, ConfigHeader))
  }

  /** Whatever the base directory is, no two of the six paths coincide:
      their basenames differ. */
  lemma PathsDistinct(base: string)
    ensures LayoutOf(base).Separate()
  {
    Basenames(base);
    assert "YUNETA_VERSION"[0] == 'Y' && ".config"[0] == '.' && "outputs"[0] == 'o';
    assert "include"[0] == 'i' && "yuneta_version.h"[0] == 'y' && "yuneta_config.h"[0] == 'y';
    assert |"yuneta_version.h"| != |"yuneta_config.h"|;
  }

  /* ----- Staleness ----- */

  /** `is_file_outdated(source, target)`: true when the target is not a
      regular file, otherwise whether the source was modified strictly
      later. None stands for the error `getmtime` raises on a source that
      is not there. */
  function IsFileOutdated(fs: Fs, source: string, target: string): Option<bool> {
    if !IsFile(fs, target) then Some(true)
    else if !IsFile(fs, source) then None
    else Some(fs[source].mtime > fs[target].mtime)
  }

  /** A missing target is outdated whatever the source; with both files
      present the target is outdated exactly when the source is strictly
      newer, so equal times mean up to date. */
  lemma OutdatedRules(fs: Fs, source: string, target: string)
    ensures !IsFile(fs, target) ==> IsFileOutdated(fs, source, target) == Some(true)
    ensures IsFile(fs, source) && IsFile(fs, target) ==>
              (IsFileOutdated(fs, source, target) == Some(true) <==> fs[source].mtime > fs[target].mtime)
    ensures IsFile(fs, source) && IsFile(fs, target) && fs[source].mtime == fs[target].mtime ==>
              IsFileOutdated(fs, source, target) == Some(false)
  {
  }

  /** Writing the target no earlier than the source was modified makes it up
      to date. */
  lemma FreshAfterWrite(fs: Fs, source: string, target: string, now: int, text: string)
    requires IsFile(fs, source) && source != target && fs[source].mtime <= now
    ensures IsFileOutdated(fs[target := File(now, text)], source, target) == Some(false)
  {
  }

  /* ----- The steps of the setup ----- */

  /** Why the setup stops with exit status 1. */
  datatype SetupError =
    | BaseDirMissing
    | VersionFileMissing
    | ConfigFileMissing
    | IncludeDirFailed
    | HeaderFailed(header: Header)

  /** How the setup ends, with the filesystem as it is left: on an error,
      whatever was done before it stays done. */
  datatype Outcome = Done(fs: Fs) | Fatal(error: SetupError, fs: Fs)

  /** `os.makedirs(inc, exist_ok=True)` where `out` is the parent of `inc`:
      create `out` when no path of that name exists, then create `inc`
      inside it. Creating `inc` fails unless `out` is a directory, and an
      existing `inc` is an error unless it is a directory. */
  function MakeIncludeDir(fs: Fs, out: string, inc: string): Outcome {
    var fs1 := if out in fs then fs else fs[out := Dir];
    if IsDir(fs1, inc) then Done(fs1)
    else if inc in fs1 || !IsDir(fs1, out) then Fatal(IncludeDirFailed, fs1)
    else Done(fs1[inc := Dir])
  }

  /** The header text generated from the text of its source file. */
  function HeaderText(h: Header, source: string): string {
    h.Banner() + Compile(ReadLines(source))
  }

  /** Regenerate one header: nothing when it is up to date, otherwise write
      the banner followed by the `#define` lines of the source file. The
      write fails when the header's path is a directory or the include
      directory is not one, and reading the source fails when it is not a
      regular file; a source that vanished under an existing header makes
      the staleness check itself fail. */
  function Regenerate(fs: Fs, l: Layout, h: Header, now: int, gen: (Header, string) -> string): Outcome {
    var src, hdr := l.Source(h), l.Target(h);
    match IsFileOutdated(fs, src, hdr)
    case Some(false) => Done(fs)
    case Some(true) =>
      if !IsFile(fs, src) || IsDir(fs, hdr) || !IsDir(fs, l.includeDir) then Fatal(HeaderFailed(h), fs)
      else Done(fs[hdr := File(now, gen(h, fs[src].text))])
    case None => Fatal(HeaderFailed(h), fs)
  }

  /** The base directory exists and holds both source files. */
  predicate Ready(fs: Fs, l: Layout) {
    IsDir(fs, l.base) && IsFile(fs, l.versionSource) && IsFile(fs, l.configSource)
  }

  /** The steps of `setup_yuneta_environment` over the paths of `l`: the
      three checks, the include directory, then the version header and the
      configuration header. Files written get the time `now`. */
  function Run(fs: Fs, l: Layout, now: int, gen: (Header, string) -> string): Outcome {
    if !IsDir(fs, l.base) then Fatal(BaseDirMissing, fs)
    else if !IsFile(fs, l.versionSource) then Fatal(VersionFileMissing, fs)
    else if !IsFile(fs, l.configSource) then Fatal(ConfigFileMissing, fs)
    else
      match MakeIncludeDir(fs, l.outputsDir, l.includeDir)
      case Fatal(e, fs1) => Fatal(e, fs1)
      case Done(fs1) =>
        match Regenerate(fs1, l, VersionHeader, now, gen)
        case Fatal(e, fs2) => Fatal(e, fs2)
        case Done(fs2) => Regenerate(fs2, l, ConfigHeader, now, gen)
  }

  /** `setup_yuneta_environment` for the base directory `base` (the
      `YUNETAS_BASE` variable, `/yuneta/development/yunetas` by default). */
  function Setup(fs: Fs, base: string, now: int): Outcome {
    Run(fs, LayoutOf(base), now, HeaderText)
  }

  /* ----- What each step does ----- */

  /** `fs2` agrees with `fs` on every path outside `touched`. */
  ghost predicate SameOutside(fs: Fs, fs2: Fs, touched: set<string>) {
    forall p :: p !in touched ==> (p in fs2 <==> p in fs) && (p in fs ==> fs2[p] == fs[p])
  }

  /** Agreement outside a set of paths composes. */
  lemma SameOutsideTrans(fs: Fs, fs2: Fs, fs3: Fs, a: set<string>, b: set<string>)
    requires SameOutside(fs, fs2, a) && SameOutside(fs2, fs3, b)
    ensures SameOutside(fs, fs3, a + b)
  {
  }

  /** When `os.makedirs` succeeds: the include directory is already a
      directory, or no path of its name exists and the outputs directory
      is missing or a directory. */
  predicate IncludeOk(fs: Fs, out: string, inc: string) {
    IsDir(fs, inc) || (inc !in fs && (out !in fs || IsDir(fs, out)))
  }

  /** What creating the include directory does: it succeeds exactly when
      IncludeOk holds, leaves the include directory in place when it does,
      keeps every directory, and touches no path other than the two
      directories, whether it succeeds or not. */
  lemma MakeIncludeDirSpec(fs: Fs, out: string, inc: string)
    requires out != inc
    ensures MakeIncludeDir(fs, out, inc).Done? <==> IncludeOk(fs, out, inc)
    ensures MakeIncludeDir(fs, out, inc).Done? ==>
              out in MakeIncludeDir(fs, out, inc).fs && IsDir(MakeIncludeDir(fs, out, inc).fs, inc)
    ensures SameOutside(fs, MakeIncludeDir(fs, out, inc).fs, {out, inc})
    ensures forall p :: IsDir(fs, p) ==> IsDir(MakeIncludeDir(fs, out, inc).fs, p)
  {
  }

  /** A header may be written: it is up to date, or its path is not a
      directory. */
  predicate WriteOk(fs: Fs, l: Layout, h: Header) {
    IsFileOutdated(fs, l.Source(h), l.Target(h)) != Some(true) || !IsDir(fs, l.Target(h))
  }

  /** `fs2` holds the header `h` as the setup leaves it, decided on the
      snapshot `fs`: rewritten at time `now` from its source when it was
      outdated there, and untouched otherwise. */
  ghost predicate Written(fs: Fs, fs2: Fs, l: Layout, h: Header, now: int, gen: (Header, string) -> string)
    requires IsFile(fs, l.Source(h))
  {
    var src, hdr := l.Source(h), l.Target(h);
    if IsFileOutdated(fs, src, hdr) == Some(true)
    then hdr in fs2 && fs2[hdr] == File(now, gen(h, fs[src].text))
    else hdr in fs && hdr in fs2 && fs2[hdr] == fs[hdr]
  }

  /** What regenerating one header does once its source and the include
      directory are in place: it succeeds exactly when WriteOk holds,
      leaves the header as Written says, and touches no other path. */
  lemma RegenerateSpec(fs: Fs, l: Layout, h: Header, now: int, gen: (Header, string) -> string)
    requires IsFile(fs, l.Source(h)) && IsDir(fs, l.includeDir)
    ensures Regenerate(fs, l, h, now, gen).Done? <==> WriteOk(fs, l, h)
    ensures Regenerate(fs, l, h, now, gen).Done? ==> Written(fs, Regenerate(fs, l, h, now, gen).fs, l, h, now, gen)
    ensures Regenerate(fs, l, h, now, gen).Fatal? ==> Regenerate(fs, l, h, now, gen).fs == fs
    ensures SameOutside(fs, Regenerate(fs, l, h, now, gen).fs, {l.Target(h)})
    ensures forall p :: IsDir(fs, p) ==> IsDir(Regenerate(fs, l, h, now, gen).fs, p)
  {
  }

  /** Whatever happens, creating the include directory touches no other
      path. */
  lemma MakeIncludeDirFrame(fs: Fs, out: string, inc: string)
    ensures SameOutside(fs, MakeIncludeDir(fs, out, inc).fs, {out, inc})
  {
  }

  /** Agreement outside a set of paths holds outside any larger set. */
  lemma SameOutsideWiden(fs: Fs, fs2: Fs, a: set<string>, b: set<string>)
    requires SameOutside(fs, fs2, a) && a <= b
    ensures SameOutside(fs, fs2, b)
  {
  }

  /** Whatever happens, regenerating a header touches no other path. */
  lemma RegenerateFrame(fs: Fs, l: Layout, h: Header, now: int, gen: (Header, string) -> string)
    ensures SameOutside(fs, Regenerate(fs, l, h, now, gen).fs, {l.Target(h)})
  {
  }

  /** Staleness and writability of a header depend only on its own two
      paths and on the include directory. */
  lemma DecisionFrame(fs: Fs, fs2: Fs, l: Layout, h: Header, touched: set<string>)
    requires SameOutside(fs, fs2, touched)
    requires l.Source(h) !in touched && l.Target(h) !in touched
    ensures IsFileOutdated(fs2, l.Source(h), l.Target(h)) == IsFileOutdated(fs, l.Source(h), l.Target(h))
    ensures WriteOk(fs2, l, h) == WriteOk(fs, l, h)
    ensures IsFile(fs, l.Source(h)) ==> IsFile(fs2, l.Source(h)) && fs2[l.Source(h)] == fs[l.Source(h)]
  {
  }

  /* ----- What a run does ----- */

  /** Whether it succeeds or stops, a run changes nothing but the outputs
      and include directories and the two headers. */
  lemma RunFrame(fs: Fs, l: Layout, now: int, gen: (Header, string) -> string)
    ensures SameOutside(fs, Run(fs, l, now, gen).fs, l.Touched())
  {
    var out, inc, vh, ch := l.outputsDir, l.includeDir, l.versionHeader, l.configHeader;
    if Ready(fs, l) {
      var m := MakeIncludeDir(fs, out, inc);
      MakeIncludeDirFrame(fs, out, inc);
      if m.Done? {
        var r := Regenerate(m.fs, l, VersionHeader, now, gen);
        RegenerateFrame(m.fs, l, VersionHeader, now, gen);
        SameOutsideTrans(fs, m.fs, r.fs, {out, inc}, {vh});
        if r.Done? {
          RegenerateFrame(r.fs, l, ConfigHeader, now, gen);
          SameOutsideTrans(fs, r.fs, Run(fs, l, now, gen).fs, {out, inc} + {vh}, {ch});
          assert {out, inc} + {vh} + {ch} == l.Touched();
        } else {
          SameOutsideWiden(fs, r.fs, {out, inc} + {vh}, l.Touched());
        }
      } else {
        SameOutsideWiden(fs, m.fs, {out, inc}, l.Touched());
      }
    }
  }

  /** The three checks come before any effect: a run stops on one of them
      exactly when the base directory or a source file is missing, and then
      leaves the filesystem as it was. */
  lemma RunChecks(fs: Fs, l: Layout, now: int, gen: (Header, string) -> string)
    ensures !Ready(fs, l) ==> Run(fs, l, now, gen).Fatal? && Run(fs, l, now, gen).fs == fs
    ensures (Run(fs, l, now, gen).Fatal? && Run(fs, l, now, gen).error in {BaseDirMissing, VersionFileMissing, ConfigFileMissing})
            <==> !Ready(fs, l)
    ensures !IsDir(fs, l.base) ==> Run(fs, l, now, gen) == Fatal(BaseDirMissing, fs)
    ensures IsDir(fs, l.base) && !IsFile(fs, l.versionSource) ==>
              Run(fs, l, now, gen) == Fatal(VersionFileMissing, fs)
    ensures IsDir(fs, l.base) && IsFile(fs, l.versionSource) && !IsFile(fs, l.configSource) ==>
              Run(fs, l, now, gen) == Fatal(ConfigFileMissing, fs)
  {
  }

  /** A run succeeds exactly when the checks pass, the include directory
      can be created, and each header may be written; each header's
      condition is judged on the original snapshot, independently of the
      other header. */
  lemma RunSucceeds(fs: Fs, l: Layout, now: int, gen: (Header, string) -> string)
    requires l.Separate()
    ensures Run(fs, l, now, gen).Done? <==>
              && Ready(fs, l)
              && IncludeOk(fs, l.outputsDir, l.includeDir)
              && WriteOk(fs, l, VersionHeader)
              && WriteOk(fs, l, ConfigHeader)
  {
    var out, inc, vh := l.outputsDir, l.includeDir, l.versionHeader;
    if Ready(fs, l) {
      var m := MakeIncludeDir(fs, out, inc);
      MakeIncludeDirSpec(fs, out, inc);
      if m.Done? {
        DecisionFrame(fs, m.fs, l, VersionHeader, {out, inc});
        DecisionFrame(fs, m.fs, l, ConfigHeader, {out, inc});
        var r := Regenerate(m.fs, l, VersionHeader, now, gen);
        RegenerateSpec(m.fs, l, VersionHeader, now, gen);
        if r.Done? {
          assert IsDir(r.fs, inc);
          DecisionFrame(m.fs, r.fs, l, ConfigHeader, {vh});
          RegenerateSpec(r.fs, l, ConfigHeader, now, gen);
        }
      }
    }
  }

  /** After a successful run the checks had passed, the include directory
      exists and every directory is still one. */
  lemma RunDirs(fs: Fs, l: Layout, now: int, gen: (Header, string) -> string)
    requires l.Separate() && Run(fs, l, now, gen).Done?
    ensures Ready(fs, l)
    ensures IsDir(Run(fs, l, now, gen).fs, l.includeDir) && l.outputsDir in Run(fs, l, now, gen).fs
    ensures forall p :: IsDir(fs, p) ==> IsDir(Run(fs, l, now, gen).fs, p)
  {
    var out, inc, vh := l.outputsDir, l.includeDir, l.versionHeader;
    var m := MakeIncludeDir(fs, out, inc);
    MakeIncludeDirSpec(fs, out, inc);
    DecisionFrame(fs, m.fs, l, VersionHeader, {out, inc});
    DecisionFrame(fs, m.fs, l, ConfigHeader, {out, inc});
    var r := Regenerate(m.fs, l, VersionHeader, now, gen);
    RegenerateSpec(m.fs, l, VersionHeader, now, gen);
    DecisionFrame(m.fs, r.fs, l, ConfigHeader, {vh});
    RegenerateSpec(r.fs, l, ConfigHeader, now, gen);
  }

  /** After a successful run each header is as Written says: rewritten from
      its own source exactly when it was outdated before the run, whatever
      happened to the other header. */
  lemma RunWrites(fs: Fs, l: Layout, now: int, h: Header, gen: (Header, string) -> string)
    requires l.Separate() && Run(fs, l, now, gen).Done?
    ensures IsFile(fs, l.Source(h)) && Written(fs, Run(fs, l, now, gen).fs, l, h, now, gen)
  {
    var out, inc, vh, ch := l.outputsDir, l.includeDir, l.versionHeader, l.configHeader;
    var m := MakeIncludeDir(fs, out, inc);
    MakeIncludeDirSpec(fs, out, inc);
    DecisionFrame(fs, m.fs, l, VersionHeader, {out, inc});
    var r := Regenerate(m.fs, l, VersionHeader, now, gen);
    RegenerateSpec(m.fs, l, VersionHeader, now, gen);
    SameOutsideTrans(fs, m.fs, r.fs, {out, inc}, {vh});
    DecisionFrame(fs, r.fs, l, ConfigHeader, {out, inc} + {vh});
    var f := Regenerate(r.fs, l, ConfigHeader, now, gen);
    RegenerateSpec(r.fs, l, ConfigHeader, now, gen);
    if h == VersionHeader {
      WrittenBefore(fs, m.fs, r.fs, l, VersionHeader, now, {out, inc}, gen);
      WrittenAfter(fs, r.fs, f.fs, l, VersionHeader, now, {ch}, gen);
    } else {
      WrittenBefore(fs, r.fs, f.fs, l, ConfigHeader, now, {out, inc} + {vh}, gen);
    }
  }

  /** Where a run that passed its checks stops, and what it leaves behind.
      Nothing is rolled back: when `outputs/include` cannot be made the run
      stops before either header; when the version header cannot be written
      the configuration header is untouched; and when only the
      configuration header cannot be written, the version header stays as
      the run wrote it. */
  lemma RunStops(fs: Fs, l: Layout, now: int, gen: (Header, string) -> string)
    requires l.Separate() && Ready(fs, l)
    ensures !IncludeOk(fs, l.outputsDir, l.includeDir) ==>
              Run(fs, l, now, gen).Fatal? && Run(fs, l, now, gen).error == IncludeDirFailed
              && SameOutside(fs, Run(fs, l, now, gen).fs, {l.outputsDir, l.includeDir})
    ensures IncludeOk(fs, l.outputsDir, l.includeDir) && !WriteOk(fs, l, VersionHeader) ==>
              Run(fs, l, now, gen).Fatal? && Run(fs, l, now, gen).error == HeaderFailed(VersionHeader)
              && IsDir(Run(fs, l, now, gen).fs, l.includeDir)
              && SameOutside(fs, Run(fs, l, now, gen).fs, {l.outputsDir, l.includeDir})
    ensures IncludeOk(fs, l.outputsDir, l.includeDir) && WriteOk(fs, l, VersionHeader)
            && !WriteOk(fs, l, ConfigHeader) ==>
              Run(fs, l, now, gen).Fatal? && Run(fs, l, now, gen).error == HeaderFailed(ConfigHeader)
              && IsDir(Run(fs, l, now, gen).fs, l.includeDir)
              && Written(fs, Run(fs, l, now, gen).fs, l, VersionHeader, now, gen)
              && SameOutside(fs, Run(fs, l, now, gen).fs, {l.outputsDir, l.includeDir, l.versionHeader})
  {
    var out, inc, vh := l.outputsDir, l.includeDir, l.versionHeader;
    var m := MakeIncludeDir(fs, out, inc);
    MakeIncludeDirSpec(fs, out, inc);
    if m.Done? {
      DecisionFrame(fs, m.fs, l, VersionHeader, {out, inc});
      DecisionFrame(fs, m.fs, l, ConfigHeader, {out, inc});
      var r := Regenerate(m.fs, l, VersionHeader, now, gen);
      RegenerateSpec(m.fs, l, VersionHeader, now, gen);
      if r.Done? {
        SameOutsideTrans(fs, m.fs, r.fs, {out, inc}, {vh});
        DecisionFrame(fs, r.fs, l, ConfigHeader, {out, inc} + {vh});
        RegenerateSpec(r.fs, l, ConfigHeader, now, gen);
        WrittenBefore(fs, m.fs, r.fs, l, VersionHeader, now, {out, inc}, gen);
      }
    }
  }

  /** Written stays true when the paths changed before the step are not the
      header's own. */
  lemma WrittenBefore(fs: Fs, fs1: Fs, fs2: Fs, l: Layout, h: Header, now: int, touched: set<string>, gen: (Header, string) -> string)
    requires IsFile(fs, l.Source(h)) && SameOutside(fs, fs1, touched)
    requires l.Source(h) !in touched && l.Target(h) !in touched
    requires IsFile(fs1, l.Source(h)) && Written(fs1, fs2, l, h, now, gen)
    ensures Written(fs, fs2, l, h, now, gen)
  {
    DecisionFrame(fs, fs1, l, h, touched);
  }

  /** Written stays true when the paths changed after the step are not the
      header's own. */
  lemma WrittenAfter(fs: Fs, fs1: Fs, fs2: Fs, l: Layout, h: Header, now: int, touched: set<string>, gen: (Header, string) -> string)
    requires IsFile(fs, l.Source(h)) && Written(fs, fs1, l, h, now, gen)
    requires SameOutside(fs1, fs2, touched) && l.Target(h) !in touched
    ensures Written(fs, fs2, l, h, now, gen)
  {
  }

  /** A second run, at any later time, finds every header up to date and
      changes nothing, provided no source file was modified after the
      first run's time. */
  lemma RunIdempotent(fs: Fs, l: Layout, now: int, later: int, gen: (Header, string) -> string)
    requires l.Separate() && Run(fs, l, now, gen).Done?
    requires IsFile(fs, l.versionSource) && fs[l.versionSource].mtime <= now
    requires IsFile(fs, l.configSource) && fs[l.configSource].mtime <= now
    ensures Run(Run(fs, l, now, gen).fs, l, later, gen) == Done(Run(fs, l, now, gen).fs)
  {
    var fs2 := Run(fs, l, now, gen).fs;
    RunFrame(fs, l, now, gen);
    RunDirs(fs, l, now, gen);
    RunWrites(fs, l, now, VersionHeader, gen);
    RunWrites(fs, l, now, ConfigHeader, gen);
    assert Ready(fs2, l);
    assert MakeIncludeDir(fs2, l.outputsDir, l.includeDir) == Done(fs2);
    FreshHeader(fs, fs2, l, VersionHeader, now, gen);
    FreshHeader(fs, fs2, l, ConfigHeader, now, gen);
  }

  /** A header left as Written says is up to date afterwards, provided its
      source kept a time no later than `now`. */
  lemma FreshHeader(fs: Fs, fs2: Fs, l: Layout, h: Header, now: int, gen: (Header, string) -> string)
    requires IsFile(fs, l.Source(h)) && fs[l.Source(h)].mtime <= now
    requires l.Source(h) != l.Target(h)
    requires IsFile(fs2, l.Source(h)) && fs2[l.Source(h)] == fs[l.Source(h)]
    requires Written(fs, fs2, l, h, now, gen)
    ensures IsFileOutdated(fs2, l.Source(h), l.Target(h)) == Some(false)
  {
  }

  /* ----- The setup as a whole ----- */

  /** Whether it succeeds or stops, the setup changes nothing but
      `outputs`, `outputs/include` and the two headers. */
  lemma SetupFrame(fs: Fs, base: string, now: int)
    ensures SameOutside(fs, Setup(fs, base, now).fs, LayoutOf(base).Touched())
  {
    RunFrame(fs, LayoutOf(base), now, HeaderText);
  }

  /** The setup stops before any effect exactly when the base directory,
      `YUNETA_VERSION` or `.config` is missing. */
  lemma SetupChecks(fs: Fs, base: string, now: int)
    ensures !Ready(fs, LayoutOf(base)) ==> Setup(fs, base, now).Fatal? && Setup(fs, base, now).fs == fs
    ensures (Setup(fs, base, now).Fatal?
             && Setup(fs, base, now).error in {BaseDirMissing, VersionFileMissing, ConfigFileMissing})
            <==> !Ready(fs, LayoutOf(base))
    ensures var l := LayoutOf(base);
            && (!IsDir(fs, base) ==> Setup(fs, base, now) == Fatal(BaseDirMissing, fs))
            && (IsDir(fs, base) && !IsFile(fs, l.versionSource) ==>
                  Setup(fs, base, now) == Fatal(VersionFileMissing, fs))
            && (IsDir(fs, base) && IsFile(fs, l.versionSource) && !IsFile(fs, l.configSource) ==>
                  Setup(fs, base, now) == Fatal(ConfigFileMissing, fs))
  {
    RunChecks(fs, LayoutOf(base), now, HeaderText);
  }

  /** When the configuration header cannot be written after the version
      header was, the setup stops with the version header left in place,
      holding its banner followed by what kconfig2include makes of
      `YUNETA_VERSION` if it was rewritten. */
  lemma SetupStops(fs: Fs, base: string, now: int)
    requires var l := LayoutOf(base);
             Ready(fs, l) && IncludeOk(fs, l.outputsDir, l.includeDir)
             && WriteOk(fs, l, VersionHeader) && !WriteOk(fs, l, ConfigHeader)
    ensures var l, r := LayoutOf(base), Setup(fs, base, now);
            && r.Fatal? && r.error == HeaderFailed(ConfigHeader)
            && Written(fs, r.fs, l, VersionHeader, now, HeaderText)
            && SameOutside(fs, r.fs, {l.outputsDir, l.includeDir, l.versionHeader})
  {
    PathsDistinct(base);
    RunStops(fs, LayoutOf(base), now, HeaderText);
  }

  /** The setup succeeds exactly when the checks pass, `outputs/include`
      can be created, and neither header is both outdated and a directory. */
  lemma SetupSucceeds(fs: Fs, base: string, now: int)
    ensures var l := LayoutOf(base);
            Setup(fs, base, now).Done? <==>
              Ready(fs, l) && IncludeOk(fs, l.outputsDir, l.includeDir)
              && WriteOk(fs, l, VersionHeader) && WriteOk(fs, l, ConfigHeader)
  {
    PathsDistinct(base);
    RunSucceeds(fs, LayoutOf(base), now, HeaderText);
  }

  /** After a successful setup, each header was rewritten exactly when it
      was outdated before the setup, each decision independent of the
      other header; a rewritten header holds its banner followed by what
      kconfig2include makes of its source, and carries the time `now`. */
  lemma SetupWrites(fs: Fs, base: string, now: int, h: Header)
    requires Setup(fs, base, now).Done?
    ensures var l, fs2 := LayoutOf(base), Setup(fs, base, now).fs;
            && IsFile(fs, l.Source(h))
            && l.Target(h) in fs2
            && (IsFileOutdated(fs, l.Source(h), l.Target(h)) == Some(true) ==>
                  fs2[l.Target(h)] == File(now, h.Banner() + Compile(ReadLines(fs[l.Source(h)].text))))
            && (IsFileOutdated(fs, l.Source(h), l.Target(h)) != Some(true) ==>
                  l.Target(h) in fs && fs2[l.Target(h)] == fs[l.Target(h)])
  {
    PathsDistinct(base);
    RunWrites(fs, LayoutOf(base), now, h, HeaderText);
  }

  /** Running the setup again, at any later time, changes nothing, provided
      neither source file was modified after the first run's time. */
  lemma SetupIdempotent(fs: Fs, base: string, now: int, later: int)
    requires Setup(fs, base, now).Done?
    requires IsFile(fs, LayoutOf(base).versionSource) && fs[LayoutOf(base).versionSource].mtime <= now
    requires IsFile(fs, LayoutOf(base).configSource) && fs[LayoutOf(base).configSource].mtime <= now
    ensures Setup(Setup(fs, base, now).fs, base, later) == Done(Setup(fs, base, now).fs)
  {
    PathsDistinct(base);
    RunIdempotent(fs, LayoutOf(base), now, later, HeaderText);
  }
}
