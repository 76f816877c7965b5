/** Preorder text with '#' for every empty child, and the reader of such texts. */
module TreeText {
  import opened Options
  import opened Trees

  function Encode(t: Tree<char>): string {
    match t
    case Empty => "#"
    case Fork(c, l, r) => [c] + Encode(l) + Encode(r)
  }

  /** Reads one tree from the front of s; None when s ends too early. */
  function Decode(s: string): (r: Option<(Tree<char>, string)>)
    ensures r.Some? ==> |r.value.1| < |s|
    decreases |s|
  {
    if s == "" then None
    else if s[0] == '#' then Some((Empty, s[1..]))
    else
      var l := Decode(s[1..]);
      if l.None? then None
      else
        var r := Decode(l.value.1);
        if r.None? then None
        else Some((Fork(s[0], l.value.0, r.value.0), r.value.1))
  }

  predicate AvoidsHash(t: Tree<char>) {
    t.Fork? ==> t.value != '#' && AvoidsHash(t.left) && AvoidsHash(t.right)
  }

  /** Reading a tree's text gives back the tree and leaves the rest of the input. */
  lemma {:induction false} DecodeEncode(t: Tree<char>, rest: string)
    requires AvoidsHash(t)
    ensures Decode(Encode(t) + rest) == Some((t, rest))
  {
    var s := Encode(t) + rest;
    match t
    case Empty =>
      assert s[1..] == rest;
    case Fork(c, l, r) =>
      assert s[1..] == Encode(l) + (Encode(r) + rest);
      DecodeEncode(l, Encode(r) + rest);
      DecodeEncode(r, rest);
  }

  lemma ConcatThree(a: string, b: string, c: string, d: string)
    ensures a + (b + (c + d)) == a + b + c + d
  {
  }

  /** The reader accepts nothing but texts of trees. */
  lemma {:induction false} EncodeDecode(s: string)
    requires Decode(s).Some?
    ensures AvoidsHash(Decode(s).value.0)
    ensures s == Encode(Decode(s).value.0) + Decode(s).value.1
    decreases |s|
  {
    if s[0] == '#' {
      assert s == "#" + s[1..];
    } else {
      var (l, middle) := Decode(s[1..]).value;
      var (r, rest) := Decode(middle).value;
      EncodeDecode(s[1..]);
      EncodeDecode(middle);
      ConcatThree([s[0]], Encode(l), Encode(r), rest);
      assert s == [s[0]] + s[1..];
    }
  }

  /** No tree's text is a prefix of another's. */
  lemma EncodingIsPrefixFree(t: Tree<char>, a: string, u: Tree<char>, b: string)
    requires AvoidsHash(t) && AvoidsHash(u)
    requires Encode(t) + a == Encode(u) + b
    ensures t == u && a == b
  {
    DecodeEncode(t, a);
    DecodeEncode(u, b);
  }

  /** The tree with a leaf '#' at every empty place. */
  function Extended(t: Tree<char>): Tree<char> {
    match t
    case Empty => Fork('#', Empty, Empty)
    case Fork(c, l, r) => Fork(c, Extended(l), Extended(r))
  }

  /** The text is the preorder sequence of the extended tree. */
  lemma {:induction false} EncodeIsPreorder(t: Tree<char>)
    ensures Encode(t) == Pre(Extended(t))
  {
    match t
    case Empty =>
    case Fork(c, l, r) =>
      EncodeIsPreorder(l);
      EncodeIsPreorder(r);
  }

  /** What has been read is the preorder sequence of the extended tree. */
  lemma DecodeReadsPreorder(s: string)
    requires Decode(s).Some?
    ensures s == Pre(Extended(Decode(s).value.0)) + Decode(s).value.1
  {
    EncodeDecode(s);
    EncodeIsPreorder(Decode(s).value.0);
  }

  lemma TextOfOne(x: char)
    ensures Encode(Fork(x, Empty, Empty)) == [x, '#', '#']
  {
  }

  /** The first child in the text is the left one. */
  lemma ChildrenSpelledOut(x: char, y: char, z: char, rest: string)
    requires x != '#' && y != '#' && z != '#'
    ensures Decode([x, y, '#', '#', z, '#', '#'] + rest) ==
            Some((Fork(x, Fork(y, Empty, Empty), Fork(z, Empty, Empty)), rest))
  {
    TextOfOne(y);
    TextOfOne(z);
    var t := Fork(x, Fork(y, Empty, Empty), Fork(z, Empty, Empty));
    assert Encode(t) == [x] + [y, '#', '#'] + [z, '#', '#'] == [x, y, '#', '#', z, '#', '#'];
    DecodeEncode(t, rest);
  }

  /** A lone child is on the side where no '#' stands. */
  lemma LoneChildSpelledOut(x: char, y: char, rest: string)
    requires x != '#' && y != '#'
    ensures Decode([x, y, '#', '#', '#'] + rest) == Some((Fork(x, Fork(y, Empty, Empty), Empty), rest))
    ensures Decode([x, '#', y, '#', '#'] + rest) == Some((Fork(x, Empty, Fork(y, Empty, Empty)), rest))
  {
    TextOfOne(y);
    var l, r := Fork(x, Fork(y, Empty, Empty), Empty), Fork(x, Empty, Fork(y, Empty, Empty));
    assert Encode(l) == [x] + [y, '#', '#'] + "#" == [x, y, '#', '#', '#'];
    assert Encode(r) == [x] + "#" + [y, '#', '#'] == [x, '#', y, '#', '#'];
    DecodeEncode(l, rest);
    DecodeEncode(r, rest);
  }
}
