/**
 * The two JavaScript string operations the title formatter is built on:
 * `String.prototype.split(" ")` and `Array.prototype.join(" ")`.
 * A text always splits into at least one segment (the empty text gives one
 * empty segment), and segments never contain the separator.
 */
module Segments {

  /** The separator the title formatter splits and joins on: one space. */
  const Space: char := ' '

  /** `s.split(" ")`: the maximal space-free runs of `s`, in order, including empty ones. */
  function Split(s: string): (ws: seq<string>)
    ensures |ws| >= 1
    ensures forall k :: 0 <= k < |ws| ==> Space !in ws[k]
    decreases |s|
  {
    if s == [] then [[]]
    else
      var rest := Split(s[1..]);
      if s[0] == Space then [[]] + rest
      else [[s[0]] + rest[0]] + rest[1..]
  }

  /** No segment of `ws` contains the separator. */
  predicate SpaceFree(ws: seq<string>) { forall k :: 0 <= k < |ws| ==> Space !in ws[k] }

  /** `ws.join(" ")`: the segments with one space between neighbours; `[].join(" ")` is empty. */
  function Join(ws: seq<string>): string
  {
    if ws == [] then []
    else if |ws| == 1 then ws[0]
    else ws[0] + [Space] + Join(ws[1..])
  }

  /** Joining one segment in front of a list. */
  lemma JoinCons(w: string, ws: seq<string>)
    ensures Join([w] + ws) == if ws == [] then w else w + [Space] + Join(ws)
  {
    assert ([w] + ws)[1..] == ws;
  }

  /** A character put in front of the first segment ends up in front of the joined text. */
  lemma JoinPrepend(c: char, w: string, ws: seq<string>)
    ensures Join([[c] + w] + ws) == [c] + Join([w] + ws)
  {
    JoinCons([c] + w, ws);
    JoinCons(w, ws);
  }

  /** Joining what was split gives back the text. */
  lemma {:induction false} JoinSplit(s: string)
    ensures Join(Split(s)) == s
    decreases |s|
  {
    if s != [] {
      var t := s[1..];
      var rest := Split(t);
      JoinSplit(t);
      if s[0] == Space {
        JoinCons([], rest);
        assert s == [Space] + t;
      } else {
        JoinCons([s[0]] + rest[0], rest[1..]);
        JoinCons(rest[0], rest[1..]);
        assert rest == [rest[0]] + rest[1..];
        assert s == [s[0]] + t;
      }
    }
  }

  /** A space-free prefix joins the first segment of what follows it. */
  lemma {:induction false} SplitSpaceFreePrefix(w: string, t: string)
    requires Space !in w
    ensures Split(w + t) == [w + Split(t)[0]] + Split(t)[1..]
    decreases |w|
  {
    var rest := Split(t);
    if w == [] {
      assert w + t == t;
      assert w + rest[0] == rest[0];
      assert rest == [rest[0]] + rest[1..];
    } else {
      var w' := w[1..];
      SplitSpaceFreePrefix(w', t);
      assert (w + t)[1..] == w' + t;
      assert (w + t)[0] == w[0] != Space;
      assert [w[0]] + (w' + rest[0]) == w + rest[0];
    }
  }

  /** Splitting a space-free word followed by a space and more text. */
  lemma SplitWordThenSpace(w: string, t: string)
    requires Space !in w
    ensures Split(w + [Space] + t) == [w] + Split(t)
  {
    var u := [Space] + t;
    SplitSpaceFreePrefix(w, u);
    assert w + [Space] + t == w + u;
    assert u[0] == Space && u[1..] == t;
    assert Split(u) == [[]] + Split(t);
    assert w + [] == w;
  }

  /** Splitting what was joined gives back the segments, when none contains a space. */
  lemma {:induction false} SplitJoin(ws: seq<string>)
    requires |ws| >= 1
    requires SpaceFree(ws)
    ensures Split(Join(ws)) == ws
    decreases |ws|
  {
    if |ws| == 1 {
      SplitSpaceFreePrefix(ws[0], []);
      assert ws[0] + [] == ws[0];
    } else {
      assert SpaceFree(ws[1..]);
      SplitJoin(ws[1..]);
      SplitWordThenSpace(ws[0], Join(ws[1..]));
      assert ws == [ws[0]] + ws[1..];
    }
  }
}
