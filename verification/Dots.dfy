/** Dotted key paths: splitting at dots and joining again. */
module Dots {
  /** The split of a text, given that of the text after its first character. */
  function PushFront(c: char, keys: seq<string>): seq<string>
    requires keys != []
  {
    if c == '.' then [""] + keys else [[c] + keys[0]] + keys[1..]
  }

  /** The dotted path's components; splitting always yields at least one. */
  function SplitDots(path: string): (keys: seq<string>)
    ensures keys != []
  {
    if path == "" then [""] else PushFront(path[0], SplitDots(path[1..]))
  }

  function JoinDots(keys: seq<string>): string
    requires keys != []
  {
    if |keys| == 1 then keys[0] else keys[0] + "." + JoinDots(keys[1..])
  }

  lemma {:induction false} SplitLosesNothing(path: string)
    ensures JoinDots(SplitDots(path)) == path
    ensures forall k :: 0 <= k < |SplitDots(path)| ==> '.' !in SplitDots(path)[k]
  {
    if path != "" {
      SplitLosesNothing(path[1..]);
      var rest := SplitDots(path[1..]);
      if path[0] == '.' {
        assert ([""] + rest)[1..] == rest;
      } else {
        var keys := [[path[0]] + rest[0]] + rest[1..];
        assert keys[1..] == rest[1..];
        assert path == [path[0]] + path[1..];
      }
    }
  }

  lemma PushFrontOfLonger(c: char, keys: seq<string>, more: seq<string>)
    requires keys != []
    ensures PushFront(c, keys + more) == PushFront(c, keys) + more
  {
  }

  lemma {:induction false} SplitOfJoined(a: string, b: string)
    ensures SplitDots(a + "." + b) == SplitDots(a) + SplitDots(b)
  {
    var whole := a + "." + b;
    if a == "" {
      assert whole[1..] == b;
    } else {
      SplitOfJoined(a[1..], b);
      assert whole[0] == a[0] && whole[1..] == a[1..] + "." + b;
      PushFrontOfLonger(a[0], SplitDots(a[1..]), SplitDots(b));
    }
  }

  lemma {:induction false} SplitOfPlain(a: string)
    requires '.' !in a
    ensures SplitDots(a) == [a]
  {
    if a != "" {
      SplitOfPlain(a[1..]);
      assert a == [a[0]] + a[1..];
    }
  }
}
