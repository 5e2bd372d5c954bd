/** What comes out of a download, told by the names of the asset and of the entries in it. */
module Candidates {
  import opened Prelude
  import opened Text
  import opened TextLaws
  import opened Assets
  import opened AssetNames
  import opened UpdateArgs
  import opened SelfUpdate
  import Archives

  predicate IsTarball(name: string) {
    HasEnding(name, ".tar.gz") || HasEnding(name, ".tgz")
  }

  predicate IsZipFile(name: string) {
    HasEnding(name, ".zip")
  }

  /** The ending of the name, in any ASCII case, says how a download is unpacked. */
  lemma PackagingByEnding(name: string)
    ensures PackagingOf(name) == if IsTarball(name) then TarGz else if IsZipFile(name) then ZipFile else Packaging.Plain
  {
    EndingIff(name, ".tar.gz");
    EndingIff(name, ".tgz");
    EndingIff(name, ".zip");
  }

  /** The executable's own name, and on Windows that name with `.exe`. */
  predicate IsExecutableName(config: Config, env: Environment, name: Option<string>) {
    || name == Some(config.binaryName)
    || (env.platform.os == "windows" && name == Some(config.binaryName + ".exe"))
  }

  /**
   From an archive with one entry, the candidate is that entry's content exactly when it is a file of the
   executable's name, whatever directories it lies in; from a bare download it is the download.
   */
  lemma LoneEntryIsCandidateIff(config: Config, env: Environment, name: string, bytes: seq<Byte>,
                                e: Archives.Entry, dirs: Archives.Path, last: Option<string>)
    requires e.path.Some? && Archives.LeadsTo(e.path.value, dirs, last) && (e.kind.File? || e.kind.Directory?) && Archives.IsModest(e)
    ensures IsTarball(name) && env.readTar(bytes) == Some([Some(e)]) ==>
              (IsCandidate(config, env, name, bytes, e.content) <==> e.kind.File? && IsExecutableName(config, env, last))
    ensures !IsTarball(name) && IsZipFile(name) && env.readZip(bytes) == Some([Some(e)]) ==>
              (IsCandidate(config, env, name, bytes, e.content) <==> e.kind.File? && IsExecutableName(config, env, last))
    ensures !IsTarball(name) && !IsZipFile(name) ==> IsCandidate(config, env, name, bytes, bytes)
  {
    PackagingByEnding(name);
    Archives.LoneEntryIsExtractedIff(Archives.Tar, e, NamesFor(config, env), dirs, last);
    Archives.LoneEntryIsExtractedIff(Archives.Zip, e, NamesFor(config, env), dirs, last);
  }
}
