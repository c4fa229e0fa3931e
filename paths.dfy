/**
 * The path normaliser `get_relative_path`, present word for word in blue2.c,
 * fuse.c and simple_fuse_restore.c. It turns the absolute path that FUSE hands
 * to a callback into a path relative to the protected back-end directory,
 * which the handlers pass to the `*at` system calls.
 */
module Paths {

  /** PATH_MAX on Linux: the size of every `relpath` buffer. */
  const PathMax: nat := 4096

  /**
   * `"/"` and `""` become `"."`; any other path loses exactly one leading
   * `'/'` (if it has one) and is otherwise copied unchanged. A path that fits
   * PATH_MAX with its terminator gives a result that fits `relpath` with its
   * terminator, so the `strncpy` copy is always terminated.
   */
  function RelativePath(path: string): (r: string)
    ensures path == "/" || path == "" ==> r == "."
    ensures path != "/" && path != "" ==> path == "/" + r || (path[0] != '/' && r == path)
    ensures r != []
    ensures |path| < PathMax ==> |r| < PathMax
  {
    if path == "/" || path == "" then
      "."
    else if path[0] == '/' then
      path[1..]
    else
      path
  }

  /** Putting a `'/'` in front of a non-empty relative name and normalising gives the name back. */
  lemma RelativePathOfAbsolute(name: string)
    requires name != []
    ensures RelativePath("/" + name) == name
  {
    assert ("/" + name)[0] == '/' && ("/" + name)[1..] == name;
  }

  /** Only one slash is removed: a path that starts with `"//"` keeps its second one. */
  lemma RelativePathStripsOneSlash(path: string)
    requires 2 <= |path| && path[0] == '/' && path[1] == '/'
    ensures RelativePath(path)[0] == '/'
  {
  }
}
