/** POSIX path composition as `os.path.join` performs it. */
module Paths {
  import opened Strings

  const Slash: char := '/'

  /** `os.path.join(a, b)` on POSIX: an absolute `b` replaces `a`; otherwise
      `b` is appended, with a slash unless `a` is empty or already ends in one. */
  function PathJoin(a: string, b: string): string {
    if StartsWith(b, [Slash]) then b
    else if |a| == 0 || EndsWith(a, [Slash]) then a + b
    else a + [Slash] + b
  }

  /** The last path component, as `path.split(os.sep)[-1]` computes it. */
  function LastComponent(path: string): (r: string)
    ensures Slash !in r
    ensures EndsWith(path, r)
    ensures r == path || EndsWith(path, [Slash] + r)
  {
    var parts := Split(path, Slash);
    JoinSplit(path, Slash);
    if |parts| > 1 then
      JoinAppend(parts[..|parts| - 1], [Last(parts)], Slash);
      assert parts == parts[..|parts| - 1] + [Last(parts)];
      var front := Join(parts[..|parts| - 1], Slash);
      assert path == front + ([Slash] + Last(parts));
      EndsWithAppend(front, [Slash] + Last(parts));
      EndsWithAppend(front + [Slash], Last(parts));
      Last(parts)
    else
      assert parts == [parts[0]];
      Last(parts)
  }

  /** A name without slashes joined onto any directory is that path's last
      component: the joined file lands under its own name. */
  lemma JoinedLastComponent(dir: string, name: string)
    requires Slash !in name
    ensures LastComponent(PathJoin(dir, name)) == name
  {
    var p := PathJoin(dir, name);
    assert Last(Split(p, Slash)) == name by {
      if |name| > 0 {
        assert name[0] != Slash;
      }
      if |dir| == 0 {
        assert dir + name == name;
        SplitSeparatorFree(name, Slash);
      } else if EndsWith(dir, [Slash]) {
        var d := dir[..|dir| - 1];
        assert dir + name == d + [Slash] + name;
        LastPieceAfterSeparator(d, name, Slash);
      } else {
        LastPieceAfterSeparator(dir, name, Slash);
      }
    }
    assert LastComponent(p) == Last(Split(p, Slash));
  }
}
