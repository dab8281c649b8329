/** `String.split` on a single literal separator character, as Java's
    `s.split("\\.")` behaves (its limit is 0). */
module JavaString {

  /** Every piece between separators, empty ones included: a string with n
      separators has n + 1 pieces. */
  function SplitAll(s: string, sep: char): (parts: seq<string>)
    ensures |parts| >= 1
    ensures forall i :: 0 <= i < |parts| ==> sep !in parts[i]
  {
    if s == [] then [""]
    else
      var rest := SplitAll(s[1..], sep);
      if s[0] == sep then [""] + rest
      else [[s[0]] + rest[0]] + rest[1..]
  }

  /** The pieces glued back together with the separator between them. */
  function Join(parts: seq<string>, sep: char): string
    requires |parts| >= 1
  {
    if |parts| == 1 then parts[0] else parts[0] + [sep] + Join(parts[1..], sep)
  }

  /** The pieces with the empty ones at the end removed. */
  function DropTrailingEmpty(parts: seq<string>): (kept: seq<string>)
    ensures |kept| <= |parts| && kept == parts[..|kept|]
    ensures forall i :: |kept| <= i < |parts| ==> parts[i] == ""
    ensures |kept| > 0 ==> kept[|kept| - 1] != ""
  {
    if parts == [] then []
    else if parts[|parts| - 1] == "" then DropTrailingEmpty(parts[..|parts| - 1])
    else parts
  }

  /** Java's `split` with limit 0: a string without a separator (the empty
      string among them) is its own single piece; otherwise all pieces,
      leading empty ones kept, trailing empty ones dropped. */
  function Split(s: string, sep: char): (parts: seq<string>)
    ensures s == [] ==> parts == [""]
    ensures s != [] ==> |parts| <= |SplitAll(s, sep)| && parts == SplitAll(s, sep)[..|parts|]
    ensures s != [] ==> forall i :: |parts| <= i < |SplitAll(s, sep)| ==> SplitAll(s, sep)[i] == ""
    ensures s != [] && |parts| > 0 ==> parts[|parts| - 1] != ""
  {
    if s == [] then [""] else DropTrailingEmpty(SplitAll(s, sep))
  }

  lemma {:induction false} JoinSplitAll(s: string, sep: char)
    ensures Join(SplitAll(s, sep), sep) == s
  {
    if s != [] {
      var rest := SplitAll(s[1..], sep);
      JoinSplitAll(s[1..], sep);
      if s[0] == sep {
        assert SplitAll(s, sep)[1..] == rest;
      } else {
        var parts := SplitAll(s, sep);
        assert parts[1..] == rest[1..];
        if |rest| > 1 {
          assert Join(rest, sep) == rest[0] + [sep] + Join(rest[1..], sep);
        }
      }
    }
  }

  /** A sep-free piece followed by a separator splits off as the first piece. */
  lemma {:induction false} SplitAllCons(p: string, t: string, sep: char)
    requires sep !in p
    ensures SplitAll(p + [sep] + t, sep) == [p] + SplitAll(t, sep)
  {
    var s := p + [sep] + t;
    if p == [] {
      assert s[1..] == t;
    } else {
      assert s[1..] == p[1..] + [sep] + t;
      SplitAllCons(p[1..], t, sep);
      assert [p[0]] + p[1..] == p;
    }
  }

  lemma {:induction false} SplitAllNoSeparator(p: string, sep: char)
    requires sep !in p
    ensures SplitAll(p, sep) == [p]
  {
    if p != [] {
      SplitAllNoSeparator(p[1..], sep);
      assert [p[0]] + p[1..] == p;
    }
  }

  /** Splitting what Join glued gives back the pieces, when no piece holds the
      separator: with JoinSplitAll, SplitAll and Join are inverses. */
  lemma {:induction false} SplitAllJoin(parts: seq<string>, sep: char)
    requires |parts| >= 1
    requires forall i :: 0 <= i < |parts| ==> sep !in parts[i]
    ensures SplitAll(Join(parts, sep), sep) == parts
  {
    if |parts| == 1 {
      SplitAllNoSeparator(parts[0], sep);
    } else {
      SplitAllJoin(parts[1..], sep);
      SplitAllCons(parts[0], Join(parts[1..], sep), sep);
    }
  }

  /** A string made only of separators splits into empty pieces only. */
  lemma {:induction false} SplitAllOnlySeparators(s: string, sep: char)
    requires forall i :: 0 <= i < |s| ==> s[i] == sep
    ensures |SplitAll(s, sep)| == |s| + 1
    ensures forall i :: 0 <= i < |SplitAll(s, sep)| ==> SplitAll(s, sep)[i] == ""
  {
    if s != [] {
      SplitAllOnlySeparators(s[1..], sep);
    }
  }

  /** Java keeps every piece up to the last non-empty one. */
  lemma SplitKeepsUpToNonEmpty(s: string, sep: char, i: nat)
    requires s != [] && i < |SplitAll(s, sep)| && SplitAll(s, sep)[i] != ""
    ensures i < |Split(s, sep)| && Split(s, sep)[..i + 1] == SplitAll(s, sep)[..i + 1]
  {
  }

  /** Java drops every piece after the last non-empty one: a non-empty string
      of separators alone splits into no pieces at all. */
  lemma SplitOnlySeparators(s: string, sep: char)
    requires s != []
    requires forall i :: 0 <= i < |s| ==> s[i] == sep
    ensures Split(s, sep) == []
  {
    SplitAllOnlySeparators(s, sep);
  }

  /** A non-empty sep-free string is its own single piece. */
  lemma SplitNoSeparator(p: string, sep: char)
    requires p != [] && sep !in p
    ensures Split(p, sep) == [p]
  {
    SplitAllNoSeparator(p, sep);
  }
}
