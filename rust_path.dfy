/** The parts of Rust's `std::path` that the workspace code uses. A path is modelled as
    its sequence of normal components below the file-system root, so "/test/src" is
    ["test", "src"] and "/" is the empty path. */
module RustPath {
  import opened Wrappers
  import opened RustStr

  type Path = seq<seq<char>>

  /** `Path::file_name`: the last component; the root has none. */
  function FileName(p: Path): (r: Option<seq<char>>)
    ensures r.Some? <==> p != []
    ensures r.Some? ==> r.value == p[|p| - 1]
  {
    if p == [] then Option.None else Some(p[|p| - 1])
  }

  /** `Path::to_string_lossy`: the components after a leading '/', separated by '/'. */
  function Display(p: Path): seq<char>
  {
    "/" + Join(p, "/")
  }

  /** `Path::strip_prefix`: the components after `base` when `p` lies under `base`
      (or is `base`). */
  function StripPrefix(p: Path, base: Path): (r: Option<Path>)
    ensures r.Some? <==> |base| <= |p| && p[..|base|] == base
    ensures r.Some? ==> p == base + r.value
  {
    if |base| <= |p| && p[..|base|] == base then Some(p[|base|..]) else Option.None
  }
}
