/** The two `os.path` calls of the naming code, with `/` as the separator. */
module Paths {
  import opened Text

  /** `os.path.join(dir, file)`: an absolute `file` wins, otherwise one separator goes between. */
  function JoinPath(dir: string, file: string): string {
    if file != [] && file[0] == '/' then file
    else if dir == [] || dir[|dir| - 1] == '/' then dir + file
    else dir + "/" + file
  }

  /** `os.path.basename(path)`: what follows the last separator. */
  function BaseName(path: string): string {
    AfterLast(path, '/')
  }

  /** Joining a file name without separators and taking the base name gives that file name back. */
  lemma BaseNameOfJoin(dir: string, file: string)
    requires '/' !in file
    ensures BaseName(JoinPath(dir, file)) == file
  {
    if dir == [] {
      AfterLastAppend([], file, '/');
      assert [] + file == file;
    } else if dir[|dir| - 1] == '/' {
      AfterLastAppend(dir, file, '/');
      assert AfterLast(dir, '/') == [];
    } else {
      AfterLastAppend(dir + "/", file, '/');
      assert AfterLast(dir + "/", '/') == [];
    }
  }

  /** Two joins under the same directory are equal ignoring case only when the file names are. */
  lemma JoinPathKeepsCaseDistinction(dir: string, a: string, b: string)
    requires '/' !in a && '/' !in b
    requires Lower(a) != Lower(b)
    ensures Lower(JoinPath(dir, a)) != Lower(JoinPath(dir, b))
  {
    var sep := if dir == [] || dir[|dir| - 1] == '/' then dir else dir + "/";
    if a != [] { assert a[0] in a; }
    if b != [] { assert b[0] in b; }
    assert JoinPath(dir, a) == sep + a && JoinPath(dir, b) == sep + b;
    LowerConcat(sep, a);
    LowerConcat(sep, b);
    assert (Lower(sep) + Lower(a))[|sep|..] == Lower(a);
    assert (Lower(sep) + Lower(b))[|sep|..] == Lower(b);
  }
}
