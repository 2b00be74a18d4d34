/** What the tools take from `os`: the entries a directory walk yields and
    `os.path.join`. The walk itself (its order, its errors) is an input. */
module PyOs {
  import opened PyStr

  /** One file reported by `os.walk`: the directory it is in and its name. */
  datatype WalkEntry = WalkEntry(dir: string, name: string)

  /** `os.path.join(dir, name)` for a plain file name. */
  function PathJoin(dir: string, name: string): (p: string)
    ensures EndsWith(p, name)
  {
    var p := if |dir| == 0 || dir[|dir| - 1] == '/' then dir + name else dir + "/" + name;
    assert p[|p| - |name|..] == name;
    p
  }
}
