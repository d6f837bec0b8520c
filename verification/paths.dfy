/** The part of Rust's `std::path::Path` the core uses: `file_name()` and
    `extension()` on '/'-separated paths. Empty components and "." components
    are ignored, ".." is not a file name, and a leading dot does not start an
    extension. */
module Paths {
  import opened Wrappers
  import opened Text

  /** `Path::file_name`: the last component, if it is a normal one. */
  function FileName(p: string): (r: Option<string>)
    ensures r.Some? ==> r.value != [] && '/' !in r.value && r.value != "." && r.value != ".."
    decreases |p|
  {
    match LastIndexOf(p, '/')
    case None => if p == "" || p == "." || p == ".." then None else Some(p)
    case Some(i) =>
      var last := p[i + 1..];
      if last == "" || last == "." then FileName(p[..i])
      else if last == ".." then None
      else Some(last)
  }

  /** `Path::extension`: the text after the last '.' of the file name, unless
      that '.' is its first character. */
  function Extension(p: string): (r: Option<string>)
    ensures r.Some? ==> '.' !in r.value && '/' !in r.value
    ensures r.Some? <==> FileName(p).Some? && '.' in FileName(p).value[1..]
    ensures r.Some? ==> exists stem :: stem != [] && FileName(p) == Some(stem + "." + r.value)
  {
    match FileName(p)
    case None => None
    case Some(name) =>
      match LastIndexOf(name, '.')
      case None =>
        assert forall k :: 0 <= k < |name[1..]| ==> name[1..][k] == name[k + 1];
        None
      case Some(i) =>
        if i == 0 then
          assert forall k :: 0 <= k < |name[1..]| ==> name[1..][k] == name[k + 1];
          None
        else
          assert name[1..][i - 1] == '.';
          assert name == name[..i] + "." + name[i + 1..];
          Some(name[i + 1..])
  }

  /** The file name of "dir/name" is "name". */
  lemma FileNameOfJoin(dir: string, name: string)
    requires dir == [] || dir[|dir| - 1] == '/'
    requires name != [] && '/' !in name && name != "." && name != ".."
    ensures FileName(dir + name) == Some(name)
  {
    var p := dir + name;
    if dir == [] {
      assert p == name;
    } else {
      var j := |dir| - 1;
      assert p[j] == '/';
      assert forall k :: j < k < |p| ==> p[k] == name[k - |dir|];
      assert LastIndexOf(p, '/') == Some(j);
      assert p[j + 1..] == name;
    }
  }

  /** A poster path "dir/stem.ext" has extension "ext". */
  lemma ExtensionOfJoin(dir: string, stem: string, ext: string)
    requires dir == [] || dir[|dir| - 1] == '/'
    requires stem != [] && '/' !in stem
    requires '/' !in ext && '.' !in ext
    requires stem != "." || ext != ""
    ensures Extension(dir + stem + "." + ext) == Some(ext)
  {
    var name := stem + "." + ext;
    assert dir + stem + "." + ext == dir + name;
    DottedNameIsFileName(stem, ext);
    FileNameOfJoin(dir, name);
    LastDotOfDottedName(stem, ext);
    assert name[|stem| + 1..] == ext;
  }

  lemma DottedNameIsFileName(stem: string, ext: string)
    requires stem != [] && '/' !in stem && '/' !in ext
    requires stem != "." || ext != ""
    ensures var name := stem + "." + ext;
      name != [] && '/' !in name && name != "." && name != ".."
  {
    var name := stem + "." + ext;
    assert name[|stem|] == '.';
    forall k | 0 <= k < |name|
      ensures name[k] != '/'
    {
      if k < |stem| {
        assert name[k] == stem[k];
      } else if k > |stem| {
        assert name[k] == ext[k - |stem| - 1];
      }
    }
    if |name| == 2 {
      assert |stem| == 1 && ext == [];
      assert name[0] == stem[0];
      assert stem == [stem[0]];
    }
  }

  /** The last '.' of "stem.ext" is the one before `ext`, found by peeling
      `ext` off from the end as `LastIndexOf` does. */
  lemma {:induction false} LastDotOfDottedName(stem: string, ext: string)
    requires '.' !in ext
    ensures LastIndexOf(stem + "." + ext, '.') == Some(|stem|)
    decreases |ext|
  {
    var name := stem + "." + ext;
    if ext == [] {
      assert name == stem + ".";
      assert name[|name| - 1] == '.';
    } else {
      var init := ext[..|ext| - 1];
      assert name[|name| - 1] == ext[|ext| - 1];
      assert name[..|name| - 1] == stem + "." + init;
      assert '.' !in init by {
        assert forall k :: 0 <= k < |init| ==> init[k] == ext[k];
      }
      LastDotOfDottedName(stem, init);
    }
  }
}
