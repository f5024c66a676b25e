/**
 * The name of the register dump file: the input path with everything from
 * its last '.' on removed, then "-answer.res" appended. The only way the C
 * routine fails is the allocation of the new buffer, which the model takes
 * as a parameter.
 */
module DumpFilename {

  datatype Option<T> = None | Some(value: T)

  /** The text appended to the stem. */
  const SUFFIX: string := "-answer.res"

  /** `strrchr`: the position of the last `c` in `s`, if there is one. */
  function LastIndex(s: string, c: char): (r: Option<nat>)
    ensures r.None? <==> c !in s
    ensures r.Some? ==> r.value < |s| && s[r.value] == c && c !in s[r.value + 1..]
  {
    if |s| == 0 then None
    else if s[|s| - 1] == c then Some(|s| - 1)
    else
      var r := LastIndex(s[..|s| - 1], c);
      assert r.Some? ==> s[r.value + 1..] == s[..|s| - 1][r.value + 1..] + [s[|s| - 1]];
      r
  }

  /** The length of the stem: up to the last '.', or the whole input when it has none. */
  function StemLength(input: string): (len: nat)
    ensures len <= |input|
  {
    match LastIndex(input, '.')
    case Some(i) => i
    case None => |input|
  }

  /**
   * What a dump name for `input` is, independently of how it is computed:
   * a prefix of the input followed by the suffix, where the prefix stops
   * exactly at the input's last '.' (and is the whole input if there is
   * no '.').
   */
  predicate IsDumpName(input: string, name: string) {
    |SUFFIX| <= |name| && name[|name| - |SUFFIX|..] == SUFFIX
    && var stem := name[..|name| - |SUFFIX|];
    stem <= input
    && if '.' in input then |stem| < |input| && input[|stem|] == '.' && '.' !in input[|stem| + 1..]
       else stem == input
  }

  /**
   * `makeDumpFilename`: `None` exactly when the allocation fails, otherwise
   * the stem of the input followed by "-answer.res".
   */
  function MakeDumpFilename(input: string, allocSucceeds: bool): (r: Option<string>)
    ensures r.None? <==> !allocSucceeds
    ensures r.Some? ==> IsDumpName(input, r.value) && |r.value| <= |input| + |SUFFIX|
  {
    if !allocSucceeds then None
    else
      var len := StemLength(input);
      var name := input[..len] + SUFFIX;
      assert name[..|name| - |SUFFIX|] == input[..len];
      Some(name)
  }

  /** An input has exactly one dump name. */
  lemma DumpNameUnique(input: string, a: string, b: string)
    requires IsDumpName(input, a) && IsDumpName(input, b)
    ensures a == b
  {
    var sa, sb := a[..|a| - |SUFFIX|], b[..|b| - |SUFFIX|];
    assert sa == input[..|sa|] && sb == input[..|sb|];
    assert a == sa + SUFFIX && b == sb + SUFFIX;
  }

  /** An input without a '.' keeps all of its characters. */
  lemma NoExtensionKept(input: string)
    requires '.' !in input
    ensures MakeDumpFilename(input, true) == Some(input + SUFFIX)
  {
    var name := input + SUFFIX;
    assert name[..|name| - |SUFFIX|] == input;
    DumpNameUnique(input, MakeDumpFilename(input, true).value, name);
  }

  /**
   * Only the text from the last '.' on is removed: "a.b.c" gives
   * "a.b-answer.res", the earlier '.' stays in the stem.
   */
  lemma OneExtensionStripped(stem: string, ext: string)
    requires '.' !in ext
    ensures MakeDumpFilename(stem + "." + ext, true) == Some(stem + SUFFIX)
  {
    var input, name := stem + "." + ext, stem + SUFFIX;
    assert input[|stem|] == '.' && input[|stem| + 1..] == ext;
    assert name[..|name| - |SUFFIX|] == stem && stem <= input;
    DumpNameUnique(input, MakeDumpFilename(input, true).value, name);
  }

  // ---------------------------------------------------------------------
  // A '.' in a directory name. The search for the last '.' runs over the
  // whole path, so for a file without an extension inside a directory whose
  // name has a '.', the directory is cut off.

  /** "../tests/add" gives ".-answer.res": the directory "../tests/" is lost. */
  lemma DotInDirectory()
    ensures MakeDumpFilename("../tests/add", true) == Some(".-answer.res")
    ensures !("../tests/" <= MakeDumpFilename("../tests/add", true).value)
  {
    OneExtensionStripped(".", "/tests/add");
    assert "../tests/add" == "." + "." + "/tests/add";
    assert "." + SUFFIX == ".-answer.res";
    assert ".-answer.res"[1] != "../tests/"[1];
  }

  /** The stem length once only a '.' in the last path component counts. */
  function FileStemLength(input: string): (len: nat)
    ensures len <= |input|
  {
    match LastIndex(input, '.')
    case None => |input|
    case Some(i) =>
      match LastIndex(input, '/')
      case Some(j) => if j > i then |input| else i
      case None => i
  }

  /** The last path component has an extension: some '.' has no '/' after it. */
  predicate HasExtension(input: string) {
    exists i :: 0 <= i < |input| && input[i] == '.' && '/' !in input[i + 1..]
  }

  /**
   * The dump name with only the file's own extension removed: the same name
   * as before when the file has an extension, the whole path plus the suffix
   * otherwise.
   */
  function MakeDumpFilenameInDirectory(input: string, allocSucceeds: bool): (r: Option<string>)
    ensures r.None? <==> !allocSucceeds
    ensures HasExtension(input) ==> r == MakeDumpFilename(input, allocSucceeds)
    ensures !HasExtension(input) && allocSucceeds ==> r == Some(input + SUFFIX)
  {
    ExtensionIsLastDot(input);
    assert input[..|input|] == input;
    if !allocSucceeds then None else Some(input[..FileStemLength(input)] + SUFFIX)
  }

  /** The file has an extension exactly when the last '.' follows the last '/'. */
  lemma ExtensionIsLastDot(input: string)
    ensures HasExtension(input) <==> FileStemLength(input) < |input|
    ensures HasExtension(input) ==> FileStemLength(input) == StemLength(input)
  {
    match LastIndex(input, '.')
    case None =>
    case Some(k) =>
      match LastIndex(input, '/')
      case None =>
        assert input[k] == '.' && '/' !in input[k + 1..];
      case Some(j) =>
        if j < k {
          assert input[k] == '.' && '/' !in input[k + 1..];
        } else {
          forall i | 0 <= i < |input| && input[i] == '.'
            ensures '/' in input[i + 1..]
          {
            assert input[j] in input[i + 1..];
          }
        }
  }

  /** The corrected name keeps the directory part of the path. */
  lemma {:induction false} KeepsDirectory(dir: string, file: string)
    requires '/' !in file
    ensures var r := MakeDumpFilenameInDirectory(dir + "/" + file, true);
      r.Some? && dir + "/" <= r.value
  {
    var input := dir + "/" + file;
    var j := |dir|;
    assert input[j] == '/' && input[j + 1..] == file;
    var sl := LastIndex(input, '/');
    assert sl.Some?;
    assert sl.value == j;
    var len := FileStemLength(input);
    assert len > j;
    assert (dir + "/") == input[..j + 1];
  }
}
