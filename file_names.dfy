/**
 * The file-name helper `getFileName` of utils/utils.py: the part of a path
 * after its last '/', with a trailing ".gz" and then one of ".fastq" / ".fq"
 * removed. It keeps the helper's slicing quirks: a path that ends in '/' is
 * returned whole, and a path without any '/' loses its first character.
 */
module FileNames {

  predicate EndsWith(s: string, suffix: string) {
    |suffix| <= |s| && s[|s| - |suffix|..] == suffix
  }

  /**
   * Python's `s[::-1].find(c)`: how far the last `c` of `s` is from the end
   * of `s` (0 when `s` ends in `c`), or -1 when `c` does not occur.
   */
  function FindFromEnd(s: string, c: char): (k: int)
    ensures k == -1 <==> c !in s
    ensures k != -1 ==> 0 <= k < |s| && s[|s| - 1 - k] == c
    ensures k != -1 ==> forall j :: |s| - k <= j < |s| ==> s[j] != c
  {
    if s == [] then -1
    else if s[|s| - 1] == c then 0
    else
      var k := FindFromEnd(s[..|s| - 1], c);
      if k == -1 then -1 else k + 1
  }

  /**
   * `file_path[-k:]` with `k` the result of FindFromEnd: the text after the
   * last '/'. With no '/' Python reads `-(-1)` as 1 and drops the first
   * character; with '/' at the very end it reads `-0` as 0 and keeps the path.
   */
  function BaseName(path: string): (r: string)
    ensures '/' !in path ==> r == if path == [] then [] else path[1..]
    ensures '/' in path && path[|path| - 1] == '/' ==> r == path
    ensures '/' in path && path[|path| - 1] != '/' ==>
      && r != []
      && '/' !in r
      && |r| < |path|
      && path[|path| - |r| - 1] == '/'
      && path == path[..|path| - |r|] + r
  {
    var k := FindFromEnd(path, '/');
    if k == -1 then
      if path == [] then [] else path[1..]
    else if k == 0 then
      path
    else
      path[|path| - k..]
  }

  /** Drops a trailing ".gz", then a trailing ".fastq" or else a trailing ".fq". */
  function StripReadExtensions(name: string): (r: string)
    ensures |r| <= |name| && name == r + name[|r|..]
    ensures name[|r|..] in {"", ".gz", ".fastq", ".fq", ".fastq.gz", ".fq.gz"}
  {
    var unzipped := if EndsWith(name, ".gz") then name[..|name| - 3] else name;
    assert name == unzipped + name[|unzipped|..];
    assert name[|unzipped|..] in {"", ".gz"};
    var r := if EndsWith(unzipped, ".fastq") then unzipped[..|unzipped| - 6]
      else if EndsWith(unzipped, ".fq") then unzipped[..|unzipped| - 3]
      else unzipped;
    assert unzipped == r + unzipped[|r|..];
    assert unzipped[|r|..] in {"", ".fastq", ".fq"};
    assert name[|r|..] == unzipped[|r|..] + name[|unzipped|..];
    assert ".fastq" + ".gz" == ".fastq.gz" && ".fq" + ".gz" == ".fq.gz";
    r
  }

  /** What comes off is the longest of the read extensions the name ends with. */
  lemma StripReadExtensionsLongest(name: string)
    ensures var cut := |name| - |StripReadExtensions(name)|;
      && (EndsWith(name, ".gz") ==> cut >= 3)
      && (EndsWith(name, ".fq") ==> cut >= 3)
      && (EndsWith(name, ".fastq") ==> cut >= 6)
      && (EndsWith(name, ".fq.gz") ==> cut >= 6)
      && (EndsWith(name, ".fastq.gz") ==> cut >= 9)
  {
    if EndsWith(name, ".fq.gz") {
      ReadPathParts(name, ".fq", ".gz");
    } else if EndsWith(name, ".fastq.gz") {
      ReadPathParts(name, ".fastq", ".gz");
    } else if EndsWith(name, ".fq") {
      ReadPathParts(name, ".fq", "");
    } else if EndsWith(name, ".fastq") {
      ReadPathParts(name, ".fastq", "");
    }
  }

  /** A name ending in a read extension loses exactly that extension. */
  lemma ReadPathParts(name: string, ext: string, gz: string)
    requires ext in {".fastq", ".fq"} && gz in {"", ".gz"}
    requires EndsWith(name, ext + gz)
    ensures |StripReadExtensions(name)| == |name| - |ext + gz|
  {
    var stem := name[..|name| - |ext + gz|];
    assert name == stem + (ext + gz);
    assert stem + (ext + gz) == stem + ext + gz;
    StripReadExtensionsRoundTrip(stem, ext, gz);
  }

  /** `getFileName(file_path)`. */
  function GetFileName(path: string): (r: string)
    ensures |r| <= |path|
    ensures '/' in path && path[|path| - 1] != '/' ==> '/' !in r
  {
    var base := BaseName(path);
    var r := StripReadExtensions(base);
    assert forall i :: 0 <= i < |r| ==> r[i] == base[i];
    r
  }

  /** The text after the last '/' is found whatever directory precedes it. */
  lemma {:induction false} BaseNameAfterSlash(dir: string, file: string)
    requires file != [] && '/' !in file
    ensures BaseName(dir + "/" + file) == file
  {
    var path := dir + "/" + file;
    assert path[|path| - 1] == file[|file| - 1];
    assert path[|dir|] == '/';
    var r := BaseName(path);
    assert |r| == |file|;
    assert r == path[|path| - |r|..];
    assert file == path[|path| - |file|..];
  }

  /** Both read extensions, with or without ".gz", come off and leave the stem. */
  lemma {:induction false} StripReadExtensionsRoundTrip(stem: string, ext: string, gz: string)
    requires ext in {".fastq", ".fq"} && gz in {"", ".gz"}
    ensures StripReadExtensions(stem + ext + gz) == stem
  {
    var name := stem + ext + gz;
    if gz == ".gz" {
      assert EndsWith(name, ".gz");
      assert name[..|name| - 3] == stem + ext;
    } else {
      assert name == stem + ext;
      assert name[|name| - 1] == 'q';
    }
    var u := stem + ext;
    if ext == ".fastq" {
      assert EndsWith(u, ".fastq");
      assert u[..|u| - 6] == stem;
    } else {
      assert u[|u| - 3] == '.';
      assert EndsWith(u, ".fq");
      assert u[..|u| - 3] == stem;
    }
  }

  /** A read file's name is its stem, for every directory and every read extension. */
  lemma GetFileNameOfReadPath(dir: string, stem: string, ext: string, gz: string)
    requires '/' !in stem && ext in {".fastq", ".fq"} && gz in {"", ".gz"}
    ensures GetFileName(dir + "/" + stem + ext + gz) == stem
  {
    var file := stem + ext + gz;
    assert '/' !in file by {
      assert '/' !in ext && '/' !in gz;
    }
    assert dir + "/" + stem + ext + gz == dir + "/" + file;
    BaseNameAfterSlash(dir, file);
    StripReadExtensionsRoundTrip(stem, ext, gz);
  }

  /** Without any '/', the helper loses the first character of the name. */
  lemma GetFileNameWithoutDirectory(stem: string, ext: string, gz: string)
    requires stem != [] && '/' !in stem && ext in {".fastq", ".fq"} && gz in {"", ".gz"}
    ensures GetFileName(stem + ext + gz) == stem[1..]
  {
    var path := stem + ext + gz;
    assert '/' !in path by {
      assert '/' !in ext && '/' !in gz;
      assert forall i :: 0 <= i < |path| ==> path[i] != '/';
    }
    assert BaseName(path) == stem[1..] + ext + gz;
    StripReadExtensionsRoundTrip(stem[1..], ext, gz);
  }

  /**
   * A file that is not a read file keeps its name: only a trailing ".gz"
   * comes off, and any other extension stays.
   */
  lemma GetFileNameOfOtherFile(dir: string, file: string, gz: string)
    requires '/' !in file && gz in {"", ".gz"} && file + gz != []
    requires !EndsWith(file, ".fastq") && !EndsWith(file, ".fq")
    requires gz == "" ==> !EndsWith(file, ".gz")
    ensures GetFileName(dir + "/" + file + gz) == file
  {
    var name := file + gz;
    assert '/' !in name by {
      assert '/' !in gz;
    }
    assert dir + "/" + file + gz == dir + "/" + name;
    BaseNameAfterSlash(dir, name);
    if gz == ".gz" {
      assert EndsWith(name, ".gz");
      assert name[..|name| - 3] == file;
    } else {
      assert name == file;
    }
  }
}
