/** CR LF line structure, shared by the SMTP and FTP modules. */
module Lines {
  datatype Option<+T> = None | Some(value: T)

  const CRLF: seq<char> := "\r\n"

  /** A CR LF pair starts at index i of s. */
  predicate CrlfPair(s: seq<char>, i: int) {
    0 <= i && i + 1 < |s| && s[i] == '\r' && s[i + 1] == '\n'
  }

  predicate EndsCrlf(s: seq<char>) {
    CrlfPair(s, |s| - 2)
  }

  ghost predicate NoCrlf(s: seq<char>) {
    forall i :: !CrlfPair(s, i)
  }

  /** One line with its terminator: the only CR LF pair is the one at its end. */
  ghost predicate IsLine(l: seq<char>) {
    EndsCrlf(l) && forall i :: i < |l| - 2 ==> !CrlfPair(l, i)
  }

  /** Index of the first CR LF pair, or |s| when there is none. */
  function CrlfAt(s: seq<char>): (i: nat)
    ensures i <= |s|
    ensures i < |s| ==> CrlfPair(s, i)
    ensures forall j :: j < i ==> !CrlfPair(s, j)
  {
    if |s| < 2 then |s|
    else if s[0] == '\r' && s[1] == '\n' then 0
    else
      var i := CrlfAt(s[1..]);
      assert forall j :: 0 < j ==> (CrlfPair(s, j) <==> CrlfPair(s[1..], j - 1));
      i + 1
  }

  lemma Associate<T>(a: seq<T>, b: seq<T>, c: seq<T>)
    ensures (a + b) + c == a + (b + c)
  {
  }

  function Flatten(ls: seq<seq<char>>): seq<char> {
    if ls == [] then [] else ls[0] + Flatten(ls[1..])
  }

  lemma {:induction false} FlattenAppend(a: seq<seq<char>>, b: seq<seq<char>>)
    ensures Flatten(a + b) == Flatten(a) + Flatten(b)
  {
    if a == [] {
      assert a + b == b;
    } else {
      assert (a + b)[1..] == a[1..] + b;
      FlattenAppend(a[1..], b);
    }
  }

  lemma FlattenSnoc(ls: seq<seq<char>>, i: nat)
    requires i < |ls|
    ensures Flatten(ls[..i + 1]) == Flatten(ls[..i]) + ls[i]
    ensures Flatten(ls[i..]) == ls[i] + Flatten(ls[i + 1..])
  {
    assert ls[..i + 1] == ls[..i] + [ls[i]];
    FlattenAppend(ls[..i], [ls[i]]);
    assert Flatten([ls[i]]) == ls[i] + Flatten([]);
    assert ls[i..][1..] == ls[i + 1..];
  }

  /** A nonempty stretch of a stream that ends in CR LF holds the stream's first line whole, and what
      follows that line in the stretch is empty or ends in CR LF again. */
  lemma FirstLineBuffered(buffered: seq<char>, line: seq<char>, more: seq<char>)
    requires IsLine(line)
    requires buffered != [] && buffered <= line + more
    requires EndsCrlf(buffered)
    ensures |line| <= |buffered| && buffered[..|line|] == line
    ensures buffered[|line|..] == [] || EndsCrlf(buffered[|line|..])
    ensures CrlfAt(buffered) + 2 == |line|
  {
    assert forall i :: 0 <= i < |line| ==> (line + more)[i] == line[i];
    assert CrlfPair(line, |line| - 2);
    assert |line| <= |buffered| by {
      assert |buffered| < |line| ==> CrlfPair(line, |buffered| - 2);
    }
    assert buffered[..|line|] == line;
    assert CrlfPair(buffered, |line| - 2);
    assert CrlfAt(buffered) == |line| - 2 by {
      assert CrlfAt(buffered) < |line| - 2 ==> CrlfPair(line, CrlfAt(buffered));
    }
    assert buffered[|line| - 1] == '\n';
  }

  /** Once a CR LF is there, more bytes do not change where the first is. */
  lemma CrlfAtAppend(w: seq<char>, x: seq<char>)
    requires CrlfAt(w) < |w|
    ensures CrlfAt(w + x) == CrlfAt(w)
    ensures (w + x)[..CrlfAt(w)] == w[..CrlfAt(w)] && (w + x)[CrlfAt(w) + 2..] == w[CrlfAt(w) + 2..] + x
  {
    hide CrlfAt;
    var i, j := CrlfAt(w), CrlfAt(w + x);
    assert CrlfPair(w + x, i);
    assert j < i ==> CrlfPair(w, j);
  }

  lemma {:induction false} LineAlone(line: seq<char>)
    requires NoCrlf(line)
    ensures CrlfAt(line + CRLF) == |line| && (line + CRLF)[..|line|] == line && (line + CRLF)[|line| + 2..] == []
  {
    hide CrlfAt;
    var w := line + CRLF;
    assert CrlfPair(w, |line|);
    var i := CrlfAt(w);
    assert i < |line| - 1 ==> CrlfPair(line, i);
  }

  /** The lines that are complete in wire, without their CR LF. */
  function WireLines(wire: seq<char>): seq<seq<char>>
    decreases |wire|
  {
    var i := CrlfAt(wire);
    if i == |wire| then [] else [wire[..i]] + WireLines(wire[i + 2..])
  }

  /** Nothing comes after the last of them. */
  predicate OnlyLines(wire: seq<char>)
    decreases |wire|
  {
    wire == [] ||
    var i := CrlfAt(wire);
    i < |wire| && OnlyLines(wire[i + 2..])
  }

  lemma {:induction false} WireLinesAppend(w: seq<char>, x: seq<char>)
    requires OnlyLines(w)
    ensures WireLines(w + x) == WireLines(w) + WireLines(x)
    ensures OnlyLines(x) ==> OnlyLines(w + x)
    decreases |w|
  {
    if w == [] {
      assert w + x == x;
    } else {
      CrlfAtAppend(w, x);
      hide CrlfAt;
      var i := CrlfAt(w);
      WireLinesAppend(w[i + 2..], x);
      Associate([w[..i]], WireLines(w[i + 2..]), WireLines(x));
    }
  }

  lemma WireLineAlone(line: seq<char>)
    requires NoCrlf(line)
    ensures WireLines(line + CRLF) == [line] && OnlyLines(line + CRLF)
  {
    LineAlone(line);
    hide CrlfAt;
  }
}
