/**
 * The two string operations the command line relies on: POSIX
 * `os.path.basename` (built on `str.rfind`) and `" ".join(words)`,
 * together with a splitter that serves as the join's inverse.
 */
module Strings {

  /** `s.rfind(c)`: the index of the last occurrence of `c` in `s`, or -1. */
  function RFind(s: string, c: char): (i: int)
    ensures -1 <= i < |s|
    ensures i >= 0 ==> s[i] == c
    ensures forall k :: i < k < |s| ==> s[k] != c
  {
    if |s| == 0 then -1
    else if s[|s| - 1] == c then |s| - 1
    else RFind(s[..|s| - 1], c)
  }

  /** `posixpath.basename(path)`: everything after the last '/'. */
  function Basename(path: string): (name: string)
    ensures '/' !in name
    ensures |name| <= |path| && path[|path| - |name|..] == name
    ensures |name| < |path| ==> path[|path| - |name| - 1] == '/'
  {
    path[RFind(path, '/') + 1..]
  }

  /** `" ".join(words)`: the words in order, one space between neighbours. */
  function Join(words: seq<string>): (s: string)
    ensures |words| == 0 ==> s == ""
    ensures |words| >= 1 ==> words[0] <= s
  {
    if |words| == 0 then ""
    else if |words| == 1 then words[0]
    else Join(words[..|words| - 1]) + " " + words[|words| - 1]
  }

  /** `s.split(" ")`: the maximal space-free pieces of `s`, in order. */
  function Split(s: string): (pieces: seq<string>)
    ensures |pieces| >= 1
    decreases |s|
  {
    var i := RFind(s, ' ');
    if i < 0 then [s] else Split(s[..i]) + [s[i + 1..]]
  }

  /** Splitting at the last space peels off the last word. */
  lemma SplitLast(prefix: string, last: string)
    requires ' ' !in last
    ensures Split(prefix + " " + last) == Split(prefix) + [last]
  {
    var s := prefix + " " + last;
    var i := RFind(s, ' ');
    assert s[|prefix|] == ' ';
    assert i == |prefix|;
    assert s[..i] == prefix;
    assert s[i + 1..] == last;
  }

  /** The joined query loses nothing: splitting it at spaces gives back the
      words, provided there is at least one and none contains a space. */
  lemma {:induction false} SplitJoin(words: seq<string>)
    requires |words| >= 1
    requires forall k :: 0 <= k < |words| ==> ' ' !in words[k]
    ensures Split(Join(words)) == words
  {
    if |words| == 1 {
      assert RFind(words[0], ' ') < 0;
    } else {
      var init, last := words[..|words| - 1], words[|words| - 1];
      forall k | 0 <= k < |init| ensures ' ' !in init[k] {
        assert init[k] == words[k];
      }
      SplitJoin(init);
      JoinLast(words);
      SplitLast(Join(init), last);
      assert init + [last] == words;
    }
  }

  /** A join of two or more words ends in a space and the last word. */
  lemma JoinLast(words: seq<string>)
    requires |words| >= 2
    ensures Join(words) == Join(words[..|words| - 1]) + " " + words[|words| - 1]
  {
  }

  /** Each word of a join sits between separators, so the joined query is
      exactly as long as its words plus one space between each neighbour. */
  lemma {:induction false} JoinLength(words: seq<string>)
    requires |words| >= 1
    ensures |Join(words)| == TotalLength(words) + |words| - 1
  {
    if |words| > 1 {
      JoinLength(words[..|words| - 1]);
    }
  }

  function TotalLength(words: seq<string>): nat
  {
    if |words| == 0 then 0 else TotalLength(words[..|words| - 1]) + |words[|words| - 1]|
  }

  /** The base name of "dir/name" is "name" whenever "name" holds no '/'. */
  lemma BasenameAfterSeparator(dir: string, name: string)
    requires '/' !in name
    ensures Basename(dir + "/" + name) == name
  {
    var path := dir + "/" + name;
    var i := RFind(path, '/');
    assert path[|dir|] == '/';
    assert path[i + 1..] == name;
  }
}
