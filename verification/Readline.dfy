/** The console line editor. */
module Readline {

  const BUFSIZE := 1024
  const BACKSPACE := 8
  const NEWLINE := 10
  const RETURN := 13
  const SPACE := 32

  /** What reading a character yields: a byte, or a negative number for an error. */
  type Key = c: int | c <= 255

  predicate Ends(c: Key) {
    c < 0 || c == NEWLINE || c == RETURN
  }

  predicate Accepted(line: seq<Key>, c: Key, cap: nat) {
    (c >= SPACE && |line| < cap) || (c == BACKSPACE && |line| > 0)
  }

  // ----- The editor as a fold over the keys before the end of the line

  /** A printable key is appended while there is room, a backspace takes the last one back,
      anything else is ignored. */
  function Step(line: seq<Key>, c: Key, cap: nat): seq<Key> {
    if !Accepted(line, c, cap) then line
    else if c >= SPACE then line + [c]
    else line[..|line| - 1]
  }

  function Edited(keys: seq<Key>, cap: nat): seq<Key> {
    if keys == [] then []
    else Step(Edited(keys[..|keys| - 1], cap), keys[|keys| - 1], cap)
  }

  /** The keys shown on the console: the accepted ones. */
  function Echoed(keys: seq<Key>, cap: nat): seq<Key> {
    if keys == [] then []
    else
      var before, c := keys[..|keys| - 1], keys[|keys| - 1];
      Echoed(before, cap) + if Accepted(Edited(before, cap), c, cap) then [c] else []
  }

  lemma {:induction false} EditedFits(keys: seq<Key>, cap: nat)
    ensures |Edited(keys, cap)| <= cap
    ensures forall i | 0 <= i < |Edited(keys, cap)| :: Edited(keys, cap)[i] >= SPACE
  {
    if keys != [] {
      EditedFits(keys[..|keys| - 1], cap);
    }
  }

  /** Typing what was echoed, into an editor with at least as much room, gives the same line
      and echoes all of it: the console shows exactly the edits that count. */
  lemma {:induction false} EchoReplays(keys: seq<Key>, cap: nat, room: nat)
    requires room >= cap
    ensures Edited(Echoed(keys, cap), room) == Edited(keys, cap)
    ensures Echoed(Echoed(keys, cap), room) == Echoed(keys, cap)
  {
    if keys != [] {
      var before, c := keys[..|keys| - 1], keys[|keys| - 1];
      EchoReplays(before, cap, room);
      var echo := Echoed(before, cap);
      if Accepted(Edited(before, cap), c, cap) {
        assert Echoed(keys, cap) == echo + [c];
        assert (echo + [c])[..|echo|] == echo;
      } else {
        assert Echoed(keys, cap) == echo;
      }
    }
  }

  // ----- What the keys do, said of whole lines

  /** Typing a character and taking it back leaves no trace, whatever comes before and after. */
  lemma {:induction false} BackspaceUndoes(keys: seq<Key>, c: Key, more: seq<Key>, cap: nat)
    requires c >= 32 && |Edited(keys, cap)| < cap
    ensures Edited(keys + [c, 8] + more, cap) == Edited(keys + more, cap)
  {
    if more == [] {
      EditedNext(keys, c, cap);
      EditedNext(keys + [c], 8, cap);
      assert keys + [c] + [8] == keys + [c, 8] + more && keys + more == keys;
    } else {
      var front, last := more[..|more| - 1], more[|more| - 1];
      BackspaceUndoes(keys, c, front, cap);
      assert keys + more == (keys + front) + [last];
      assert keys + [c, 8] + more == (keys + [c, 8] + front) + [last];
      EditedNext(keys + front, last, cap);
      EditedNext(keys + [c, 8] + front, last, cap);
    }
  }

  lemma EditedNext(keys: seq<Key>, c: Key, cap: nat)
    ensures Edited(keys + [c], cap) == Step(Edited(keys, cap), c, cap)
  {
    assert (keys + [c])[..|keys|] == keys;
  }

  function FirstKeys(keys: seq<Key>, cap: nat): seq<Key> {
    if |keys| <= cap then keys else keys[..cap]
  }

  /** Without control keys the line is the keys themselves, as many as there is room for. */
  lemma {:induction false} PlainKeys(keys: seq<Key>, cap: nat)
    requires forall i | 0 <= i < |keys| :: keys[i] >= 32
    ensures Edited(keys, cap) == FirstKeys(keys, cap)
  {
    if keys == [] {
      assert Edited([], cap) == [];
    } else {
      hide Edited, Step, FirstKeys;
      var front, last := keys[..|keys| - 1], keys[|keys| - 1];
      PlainKeys(front, cap);
      assert keys == front + [last];
      EditedNext(front, last, cap);
      PlainKey(front, last, cap);
    }
  }

  lemma PlainKey(front: seq<Key>, last: Key, cap: nat)
    requires last >= 32
    ensures Step(FirstKeys(front, cap), last, cap) == FirstKeys(front + [last], cap)
  {
    if |front| >= cap {
      assert (front + [last])[..cap] == FirstKeys(front, cap);
    }
  }

  /** A key has no effect at all if it is printable and the line is full, or a backspace and
      the line empty, or any other control key. */
  predicate Vanishes(line: seq<Key>, c: Key, cap: nat) {
    if c >= 32 then |line| >= cap else c == 8 ==> line == []
  }

  lemma {:induction false} VanishingKeys(keys: seq<Key>, c: Key, more: seq<Key>, cap: nat)
    requires Vanishes(Edited(keys, cap), c, cap)
    ensures Edited(keys + [c] + more, cap) == Edited(keys + more, cap)
    ensures Echoed(keys + [c] + more, cap) == Echoed(keys + more, cap)
  {
    if more == [] {
      EditedNext(keys, c, cap);
      assert (keys + [c])[..|keys|] == keys;
      assert keys + [c] + more == keys + [c] && keys + more == keys;
    } else {
      var front, last := more[..|more| - 1], more[|more| - 1];
      VanishingKeys(keys, c, front, cap);
      assert (keys + more)[..|keys + more| - 1] == keys + front;
      assert (keys + [c] + more)[..|keys + [c] + more| - 1] == keys + [c] + front;
    }
  }

  // ----- readline

  class Editor {
    const buf: array<Key>

    constructor ()
      ensures buf.Length == BUFSIZE
    {
      buf := new Key[BUFSIZE];
    }

    /** Reads keys up to the first that ends the line.  On an error key there is no line;
        otherwise the buffer holds the edited line and its terminator. */
    method Readline(input: seq<Key>, ghost n: nat) returns (ok: bool, len: nat, echo: seq<Key>)
      requires buf.Length == BUFSIZE
      requires n < |input| && Ends(input[n]) && forall i | 0 <= i < n :: !Ends(input[i])
      modifies buf
      ensures ok <==> input[n] == 10 || input[n] == 13
      ensures !ok <==> input[n] < 0
      ensures ok ==> len < BUFSIZE && buf[..len] == Edited(input[..n], BUFSIZE - 1) && buf[len] == 0
      ensures echo == Echoed(input[..n], BUFSIZE - 1) + if ok then [input[n]] else []
    {
      var i, pos := 0, 0;
      echo := [];
      while true
        invariant 0 <= pos <= n && 0 <= i < BUFSIZE
        invariant buf[..i] == Edited(input[..pos], BUFSIZE - 1)
        invariant echo == Echoed(input[..pos], BUFSIZE - 1)
        decreases n - pos
      {
        var c := input[pos];
        ghost var before := input[..pos];
        assert input[..pos + 1][..pos] == before;
        pos := pos + 1;
        if c < 0 {
          return false, i, echo;
        } else if c >= SPACE && i < BUFSIZE - 1 {
          echo := echo + [c];
          buf[i] := c;
          i := i + 1;
        } else if c == BACKSPACE && i > 0 {
          echo := echo + [c];
          i := i - 1;
        } else if c == NEWLINE || c == RETURN {
          echo := echo + [c];
          buf[i] := 0;
          return true, i, echo;
        }
      }
    }
  }
}
