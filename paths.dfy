/** The few path and text operations the decoder applies to a file's path, in a simple
    ASCII abstraction of their .NET counterparts: `Path.GetFileNameWithoutExtension`,
    `String.ToUpper` and `String.EndsWith`. */
module PathText {

  /** The directory separators of a Windows path. */
  predicate IsSeparator(c: char)
  {
    c == '/' || c == '\\'
  }

  predicate NoSeparator(s: string)
  {
    forall i :: 0 <= i < |s| ==> !IsSeparator(s[i])
  }

  /** `Path.GetFileName`: what follows the last separator. */
  function FileName(path: string): (name: string)
    ensures |name| <= |path| && name == path[|path| - |name|..]
    ensures NoSeparator(name)
    ensures |name| < |path| ==> IsSeparator(path[|path| - |name| - 1])
  {
    if path == [] || IsSeparator(path[|path| - 1]) then []
    else FileName(path[..|path| - 1]) + [path[|path| - 1]]
  }

  /** The name with its extension removed: everything before the last '.', or all of it
      when it has no '.'. */
  function WithoutExtension(name: string): (stem: string)
    ensures |stem| <= |name| && stem == name[..|stem|]
    ensures '.' in name ==> |stem| < |name| && name[|stem|] == '.' && '.' !in name[|stem| + 1..]
    ensures '.' !in name ==> stem == name
  {
    if '.' !in name then name
    else if name[|name| - 1] == '.' then name[..|name| - 1]
    else
      assert '.' in name[..|name| - 1] by {
        var i :| 0 <= i < |name| && name[i] == '.';
        assert name[..|name| - 1][i] == '.';
      }
      WithoutExtension(name[..|name| - 1])
  }

  /** `Path.GetFileNameWithoutExtension`. */
  function FileNameWithoutExtension(path: string): string
  {
    WithoutExtension(FileName(path))
  }

  /** Upper-casing of one character, for the ASCII letters. */
  function UpperChar(c: char): (u: char)
    ensures !('a' <= u <= 'z')
    ensures IsSeparator(u) <==> IsSeparator(c)
  {
    if 'a' <= c <= 'z' then (c as int - 32) as char else c
  }

  /** `String.ToUpper`, character by character. */
  function ToUpper(s: string): (u: string)
    ensures |u| == |s|
    ensures forall i :: 0 <= i < |u| ==> !('a' <= u[i] <= 'z')
    ensures forall i :: 0 <= i < |s| && !('a' <= s[i] <= 'z') ==> u[i] == s[i]
  {
    seq(|s|, i requires 0 <= i < |s| => UpperChar(s[i]))
  }

  /** Upper-casing twice is upper-casing once. */
  lemma ToUpperIdempotent(s: string)
    ensures ToUpper(ToUpper(s)) == ToUpper(s)
  {
  }

  /** `url.EndsWith(".k9a")`, compared character by character. */
  predicate HasK9aSuffix(url: string)
  {
    |url| >= 4 && url[|url| - 4..] == ".k9a"
  }

  lemma ToUpperAppend(s: string, c: char)
    ensures ToUpper(s + [c]) == ToUpper(s) + [UpperChar(c)]
  {
  }

  /** The file name is what follows the last separator, whatever directory precedes it. */
  lemma {:induction false} FileNameAfterDirectory(dir: string, sep: char, name: string)
    requires IsSeparator(sep) && NoSeparator(name)
    ensures FileName(dir + [sep] + name) == name
  {
    var path := dir + [sep] + name;
    if name != [] {
      var init := name[..|name| - 1];
      assert path[..|path| - 1] == dir + [sep] + init;
      FileNameAfterDirectory(dir, sep, init);
      assert name == init + [name[|name| - 1]];
    }
  }

  /** A name without separators is its own file name. */
  lemma {:induction false} FileNameOfBareName(name: string)
    requires NoSeparator(name)
    ensures FileName(name) == name
  {
    if name != [] {
      var init := name[..|name| - 1];
      FileNameOfBareName(init);
      assert name == init + [name[|name| - 1]];
    }
  }

  /** Removing the extension leaves the stem, whatever the extension is: only the last '.'
      starts it, so the stem may hold dots of its own. */
  lemma {:induction false} WithoutExtensionDropsExtension(stem: string, ext: string)
    requires '.' !in ext
    ensures WithoutExtension(stem + ['.'] + ext) == stem
  {
    var name := stem + ['.'] + ext;
    assert name[|stem|] == '.';
    if ext != [] {
      var init := ext[..|ext| - 1];
      assert name[..|name| - 1] == stem + ['.'] + init;
      WithoutExtensionDropsExtension(stem, init);
    }
  }

  /** Upper-casing changes no separator, so it commutes with taking the file name. */
  lemma {:induction false} FileNameOfUpper(path: string)
    ensures FileName(ToUpper(path)) == ToUpper(FileName(path))
  {
    if path != [] {
      var init, last := path[..|path| - 1], path[|path| - 1];
      assert path == init + [last];
      ToUpperAppend(init, last);
      var u := ToUpper(path);
      assert u[..|u| - 1] == ToUpper(init) && u[|u| - 1] == UpperChar(last);
      assert IsSeparator(UpperChar(last)) == IsSeparator(last);
      FileNameOfUpper(init);
      if !IsSeparator(last) {
        assert FileName(u) == FileName(ToUpper(init)) + [UpperChar(last)];
        assert FileName(path) == FileName(init) + [last];
        ToUpperAppend(FileName(init), last);
      }
    }
  }

  /** Upper-casing changes no dot, so it commutes with removing the extension. */
  lemma {:induction false} WithoutExtensionOfUpper(name: string)
    ensures WithoutExtension(ToUpper(name)) == ToUpper(WithoutExtension(name))
  {
    var u := ToUpper(name);
    assert '.' in u <==> '.' in name by {
      assert forall i :: 0 <= i < |name| ==> (u[i] == '.' <==> name[i] == '.');
    }
    if '.' in name {
      var init, last := name[..|name| - 1], name[|name| - 1];
      assert name == init + [last];
      ToUpperAppend(init, last);
      if last != '.' {
        WithoutExtensionOfUpper(init);
      }
    }
  }

  /** Upper-casing commutes with `Path.GetFileNameWithoutExtension`. */
  lemma FileNameWithoutExtensionOfUpper(path: string)
    ensures FileNameWithoutExtension(ToUpper(path)) == ToUpper(FileNameWithoutExtension(path))
  {
    FileNameOfUpper(path);
    WithoutExtensionOfUpper(FileName(path));
  }
}
