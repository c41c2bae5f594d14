/** Cutting a sequence at a separator, as line readers do. */
module Lines {
  /** The complete lines, without their separators, and the unterminated rest. */
  datatype Cut<T> = Cut(lines: seq<seq<T>>, rest: seq<T>)

  /** The first position of `sep`, or the length when there is none. */
  function IndexOf<T(==)>(s: seq<T>, sep: T): (i: nat)
    ensures i <= |s|
    ensures sep !in s[..i]
    ensures i < |s| ==> s[i] == sep
  {
    if s == [] || s[0] == sep then 0
    else
      var i := 1 + IndexOf(s[1..], sep);
      assert s[..i] == [s[0]] + s[1..][..i - 1];
      i
  }

  lemma IndexOfUnique<T>(s: seq<T>, sep: T, i: nat)
    requires i < |s| && s[i] == sep && sep !in s[..i]
    ensures IndexOf(s, sep) == i
  {
    var j := IndexOf(s, sep);
    assert forall k :: 0 <= k < i ==> s[..i][k] == s[k];
    assert forall k :: 0 <= k < j ==> s[..j][k] == s[k];
  }

  function CutLines<T(==)>(s: seq<T>, sep: T): Cut<T>
    decreases |s|
  {
    var i := IndexOf(s, sep);
    if i == |s| then Cut([], s)
    else
      var more := CutLines(s[i + 1..], sep);
      Cut([s[..i]] + more.lines, more.rest)
  }

  lemma CutHead<T>(line: seq<T>, sep: T, s: seq<T>)
    requires sep !in line
    ensures CutLines(line + [sep] + s, sep) == var more := CutLines(s, sep); Cut([line] + more.lines, more.rest)
  {
    var all := line + [sep] + s;
    assert all[..|line|] == line && all[|line| + 1..] == s;
    IndexOfUnique(all, sep, |line|);
  }

  lemma NoLine<T>(s: seq<T>, sep: T)
    ensures sep !in s <==> CutLines(s, sep) == Cut([], s)
    ensures sep in s ==> CutLines(s, sep).lines != []
  {
    var i := IndexOf(s, sep);
    if i == |s| {
      assert s[..i] == s;
    }
  }

  lemma {:induction false} RestHasNoSeparator<T>(s: seq<T>, sep: T)
    ensures sep !in CutLines(s, sep).rest
    decreases |s|
  {
    var i := IndexOf(s, sep);
    if i == |s| {
      assert s[..i] == s;
    } else {
      RestHasNoSeparator(s[i + 1..], sep);
    }
  }

  lemma CutEmpty<T>(s: seq<T>, sep: T)
    requires IndexOf(s, sep) == |s|
    ensures CutLines(s, sep) == Cut([], s)
  {
  }

  /** Cutting more input goes on from the rest: the lines of the whole do not depend on where
      the input was divided. */
  lemma {:induction false} CutAppend<T>(a: seq<T>, b: seq<T>, sep: T)
    ensures var first, more := CutLines(a, sep), CutLines(CutLines(a, sep).rest + b, sep);
      CutLines(a + b, sep) == Cut(first.lines + more.lines, more.rest)
    decreases |a|
  {
    hide CutLines;
    var i := IndexOf(a, sep);
    if i < |a| {
      CutAppend(a[i + 1..], b, sep);
      CutHead(a[..i], sep, a[i + 1..] + b);
      CutHead(a[..i], sep, a[i + 1..]);
      assert a[..i] + [sep] + (a[i + 1..] + b) == a + b;
      assert a[..i] + [sep] + a[i + 1..] == a;
    } else {
      CutEmpty(a, sep);
    }
  }
}
