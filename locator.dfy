/**
 The request locator typed by the user, `"<METHOD> <PATH>"`, and its split into
 the HTTP method and the path (`splitPathString`).
 */
module Locator {
  import opened Wrappers
  import opened Text

  /** `s` holds exactly one space, and that space is neither its first nor its last character. */
  predicate OneInnerSpace(s: string)
  {
    exists i :: 0 < i < |s| - 1 && s[i] == ' ' && ' ' !in s[..i] && ' ' !in s[i + 1..]
  }

  /** Splits a locator on the space character; accepted only when exactly two
      non-empty pieces result, otherwise the Go nil slice (`None`). */
  function SplitPathString(path: string): (r: Option<seq<string>>)
    ensures r.Some? ==> |r.value| == 2 && r.value[0] != "" && r.value[1] != ""
    ensures r.Some? ==> r.value[0] + " " + r.value[1] == path
    ensures r.Some? ==> ' ' !in r.value[0] && ' ' !in r.value[1]
  {
    var parts := Split(path, ' ');
    if |parts| == 2 && parts[0] != "" && parts[1] != "" then
      assert parts[1..] == [parts[1]];
      assert Join(parts, " ") == parts[0] + " " + parts[1];
      Some(parts)
    else
      None
  }

  /** Every method name and path that are non-empty and free of spaces survive being
      joined into a locator and split again. */
  lemma SplitPathStringOfLocator(verb: string, path: string)
    requires verb != "" && path != ""
    requires ' ' !in verb && ' ' !in path
    ensures SplitPathString(verb + " " + path) == Some([verb, path])
  {
    var parts := [verb, path];
    assert parts[1..] == [path];
    assert Join(parts, " ") == verb + " " + path;
    SplitJoin(parts, ' ');
  }

  /** A locator is accepted exactly when it has one space with text on both
      sides, and then the two pieces are the text before and after that space. */
  lemma SplitPathStringAccepts(s: string)
    ensures SplitPathString(s).Some? <==> OneInnerSpace(s)
    ensures forall i :: 0 < i < |s| - 1 && s[i] == ' ' && ' ' !in s[..i] && ' ' !in s[i + 1..] ==>
      SplitPathString(s) == Some([s[..i], s[i + 1..]])
  {
    forall i | 0 < i < |s| - 1 && s[i] == ' ' && ' ' !in s[..i] && ' ' !in s[i + 1..]
      ensures SplitPathString(s) == Some([s[..i], s[i + 1..]])
    {
      SplitPathStringAt(s, i);
    }
    if SplitPathString(s).Some? {
      SplitPathStringSpace(s);
    }
  }

  lemma SplitPathStringAt(s: string, i: int)
    requires 0 < i < |s| - 1 && s[i] == ' ' && ' ' !in s[..i] && ' ' !in s[i + 1..]
    ensures SplitPathString(s) == Some([s[..i], s[i + 1..]])
  {
    assert s == s[..i] + " " + s[i + 1..];
    SplitPathStringOfLocator(s[..i], s[i + 1..]);
  }

  lemma SplitPathStringSpace(s: string)
    requires SplitPathString(s).Some?
    ensures OneInnerSpace(s)
  {
    var m, p := SplitPathString(s).value[0], SplitPathString(s).value[1];
    var i := |m|;
    assert s[..i] == m && s[i] == ' ' && s[i + 1..] == p;
  }

  /** The cases pinned by the repository's tests (app_test.go:89-91). */
  lemma SplitPathStringExamples()
    ensures SplitPathString("GET /test") == Some(["GET", "/test"])
    ensures SplitPathString("GET ") == None
    ensures SplitPathString(" /GET") == None
  {
    SplitPathStringOfLocator("GET", "/test");
    assert "GET" + " " + "/test" == "GET /test";
    SplitPathStringAccepts("GET ");
    SplitPathStringAccepts(" /GET");
  }
}
