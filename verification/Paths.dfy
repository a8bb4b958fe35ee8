/** Paths of the virtual file tree as strings: joining names with '/', and the iterator that
    splits a path at its slashes. */
module Paths {
  import opened Text

  function Join(names: seq<string>): string {
    if names == [] then ""
    else if |names| == 1 then names[0]
    else names[0] + "/" + Join(names[1..])
  }

  lemma {:induction false} JoinLast(names: seq<string>, a: string, b: string)
    ensures Join(names + [a, b]) == Join(names + [a + "/" + b])
  {
    if names == [] {
      assert [a, b][1..] == [b];
    } else {
      JoinLast(names[1..], a, b);
      assert (names + [a, b])[1..] == names[1..] + [a, b];
      assert (names + [a + "/" + b])[1..] == names[1..] + [a + "/" + b];
    }
  }

  lemma {:induction false} JoinOneMore(names: seq<string>, name: string)
    requires names != []
    ensures Join(names + [name]) == Join(names) + "/" + name
  {
    if |names| == 1 {
      assert (names + [name])[1..] == [name];
    } else {
      JoinOneMore(names[1..], name);
      assert (names + [name])[1..] == names[1..] + [name];
    }
  }

  // One step of the iterator: the next part, and what remains.
  function NextPart(remaining: string): (part: string)
    ensures |part| <= |remaining|
  {
    remaining[..Find(remaining, '/')]
  }

  function Remaining(remaining: string): (rest: string)
    ensures if remaining == "" then rest == "" else |rest| < |remaining|
  {
    var i := Find(remaining, '/');
    if i == |remaining| then "" else remaining[i + 1..]
  }

  // The parts visited by a loop over split_string: it ends when both the part and the
  // remainder are empty.
  function Visited(s: string): seq<string>
    decreases |s|
  {
    var part, rest := NextPart(s), Remaining(s);
    if part == "" && rest == "" then [] else [part] + Visited(rest)
  }

  class SplitIterator {
    var part: string
    var remaining: string

    constructor (s: string)
      ensures part == NextPart(s) && remaining == Remaining(s)
    {
      part, remaining := "", s;
      new;
      Advance();
    }

    method Advance()
      modifies this
      ensures part == NextPart(old(remaining)) && remaining == Remaining(old(remaining))
    {
      var i := Find(remaining, '/');
      if i == |remaining| {
        part, remaining := remaining, "";
      } else {
        part, remaining := remaining[..i], remaining[i + 1..];
      }
    }

    predicate AtEnd()
      reads this
    {
      part == "" && remaining == ""
    }
  }

  // ---- Which parts are visited ----------------------------------------------------------------

  // All of them, except that one or two empty parts at the end are not: a path may end in one
  // or two slashes.
  function Trimmed(parts: seq<string>): seq<string> {
    var n := |parts|;
    if n >= 2 && parts[n - 1] == "" && parts[n - 2] == "" then parts[..n - 2]
    else if n >= 1 && parts[n - 1] == "" then parts[..n - 1]
    else parts
  }

  lemma SplitStep(s: string)
    ensures SplitAll(s, '/') == if Find(s, '/') == |s| then [s] else [NextPart(s)] + SplitAll(Remaining(s), '/')
  {
    hide SplitAll, Find;
    SplitAtFirst(s, '/');
  }

  lemma TrimmedMore(first: string, parts: seq<string>)
    requires |parts| > 0 && !(first == "" && parts == [""])
    ensures Trimmed([first] + parts) == [first] + Trimmed(parts)
  {
  }

  lemma {:induction false} VisitedIsTrimmed(s: string)
    ensures Visited(s) == Trimmed(SplitAll(s, '/'))
    decreases |s|
  {
    hide SplitAll, Find;
    SplitStep(s);
    var part, rest := NextPart(s), Remaining(s);
    if Find(s, '/') == |s| {
      assert part == s;
      assert s != "" ==> Visited("") == [] by { VisitedNothing(); }
    } else {
      SplitStep(rest);
      if !(part == "" && rest == "") {
        VisitedIsTrimmed(rest);
        OnlyEmpty(rest);
        TrimmedMore(part, SplitAll(rest, '/'));
      }
    }
  }

  lemma VisitedNothing()
    ensures Visited("") == [] && SplitAll("", '/') == [""]
  {
  }

  lemma LeadingSlash(s: string)
    requires s != ""
    ensures Visited("/" + s) == [""] + Visited(s)
  {
    assert ("/" + s)[..0] == "" && ("/" + s)[1..] == s;
  }

  lemma OnlyEmpty(s: string)
    ensures SplitAll(s, '/') == [""] ==> s == ""
  {
    if s != "" {
      var rest := SplitAll(s[1..], '/');
      assert s[0] == '/' ==> |SplitAll(s, '/')| == 1 + |rest|;
      assert s[0] != '/' ==> SplitAll(s, '/')[0] == [s[0]] + rest[0];
    }
  }

  // ---- Splitting inverts joining ----------------------------------------------------------------

  predicate Name(s: string) {
    s != "" && '/' !in s
  }

  // With the root's empty name in front.
  lemma JoinFromRoot(names: seq<string>)
    requires names != [] && names[0] == "" && forall s :: s in names[1..] ==> Name(s)
    ensures if |names| == 1 then Join(names) == ""
            else Join(names) == "/" + Join(names[1..]) && Join(names[1..]) != ""
  {
    if |names| > 1 {
      assert Name(names[1..][0]);
    }
  }

  lemma {:induction false} VisitedInvertsJoin(names: seq<string>)
    requires forall s :: s in names ==> Name(s)
    ensures Visited(Join(names)) == names
    decreases |names|
  {
    hide Find;
    if names == [] {
      VisitedNothing();
    } else {
      var first, rest := names[0], Join(names[1..]);
      assert first in names;
      VisitedInvertsJoin(names[1..]);
      if |names| == 1 {
        FindIs(first, '/', |first|);
        VisitedNothing();
        assert first[..|first|] == first && names == [first];
      } else {
        var s := first + "/" + rest;
        FindIs(s, '/', |first|);
        assert s[..|first|] == first && s[|first| + 1..] == rest;
        assert names == [first] + names[1..];
      }
    }
  }
}
