/** `str::trim` and `trim_start`. */
module Trimming {
  import opened Text

  predicate Spaces(s: string) { forall i :: 0 <= i < |s| ==> IsSpace(s[i]) }

  lemma {:induction false} TrimStartOfSpaces(w: string, s: string)
    requires Spaces(w)
    ensures TrimStart(w + s) == TrimStart(s)
  {
    if w == "" {
      assert w + s == s;
    } else {
      assert (w + s)[1..] == w[1..] + s;
      TrimStartOfSpaces(w[1..], s);
    }
  }

  /** `trim` takes spaces off both ends and nothing else. */
  lemma TrimParts(s: string) returns (w: string, w': string)
    ensures Spaces(w) && Spaces(w') && s == w + Trim(s) + w'
    ensures Trim(s) != "" ==> !IsSpace(Trim(s)[0]) && !IsSpace(Trim(s)[|Trim(s)| - 1])
  {
    w := FrontSpaces(s);
    w' := BackSpaces(TrimStart(s));
    assert s == w + (Trim(s) + w');
  }

  lemma {:induction false} FrontSpaces(s: string) returns (w: string)
    ensures Spaces(w) && s == w + TrimStart(s)
    ensures TrimStart(s) != "" ==> !IsSpace(TrimStart(s)[0])
  {
    w := "";
    if s != "" && IsSpace(s[0]) {
      var v := FrontSpaces(s[1..]);
      w := [s[0]] + v;
      assert s == [s[0]] + s[1..];
    }
  }

  lemma {:induction false} BackSpaces(s: string) returns (w: string)
    ensures Spaces(w) && s == TrimEnd(s) + w
    ensures TrimEnd(s) != "" ==> !IsSpace(TrimEnd(s)[|TrimEnd(s)| - 1]) && TrimEnd(s)[0] == s[0]
  {
    w := "";
    if s != "" && IsSpace(s[|s| - 1]) {
      var v := BackSpaces(s[..|s| - 1]);
      w := v + [s[|s| - 1]];
      assert s == s[..|s| - 1] + [s[|s| - 1]];
    }
  }

  lemma {:induction false} TrimOf(w: string, x: string, w': string)
    requires Spaces(w) && Spaces(w') && x != "" && !IsSpace(x[0]) && !IsSpace(x[|x| - 1])
    ensures Trim(w + x + w') == x
  {
    TrimStartOfSpaces(w, x + w');
    assert w + x + w' == w + (x + w');
    assert TrimStart(x + w') == x + w';
    TrimEndOf(x, w');
  }

  lemma {:induction false} TrimEndOf(x: string, w: string)
    requires Spaces(w) && x != "" && !IsSpace(x[|x| - 1])
    ensures TrimEnd(x + w) == x
  {
    if w == "" {
      assert x + w == x;
    } else {
      assert (x + w)[..|x + w| - 1] == x + w[..|w| - 1];
      TrimEndOf(x, w[..|w| - 1]);
    }
  }

  lemma TrimmedToNothing(s: string)
    requires Trim(s) == ""
    ensures Spaces(s)
  {
    var w, w' := TrimParts(s);
  }
}
