/** The line editor `handle_input` of `ui.c`: a 280-byte buffer driven by key codes. */
module LineEditor {
  import opened Integers

  const BUFFER_SIZE: nat := 280
  const KEY_ESC := 27
  const KEY_DEL := 127
  const KEY_BACKSPACE := 263
  const KEY_F1 := 265
  const NEWLINE := 10

  predicate Ends(key: int) {
    key == KEY_F1 || key == KEY_ESC || key == NEWLINE
  }

  predicate Deletes(key: int) {
    key == KEY_BACKSPACE || key == KEY_DEL
  }

  predicate Types(key: int) {
    !Ends(key) && !Deletes(key)
  }

  /** `(char) key`, as an unsigned byte. */
  function ByteOf(key: int): byte {
    (key % 256) as byte
  }

  /** The line after some keys: a stack of at most 279 bytes. */
  function Line(keys: seq<int>): (line: seq<byte>)
    ensures |line| < BUFFER_SIZE
  {
    if keys == [] then []
    else
      var before, key := Line(keys[..|keys| - 1]), keys[|keys| - 1];
      if Deletes(key) then (if before == [] then [] else before[..|before| - 1])
      else if Types(key) && |before| < BUFFER_SIZE - 1 then before + [ByteOf(key)]
      else before
  }

  /** `Submitted` carries the string handed back, with its terminating NUL; `Waiting` is
      the editor still reading after the last key given. */
  datatype Result = Submitted(bytes: seq<byte>) | Cancelled | Waiting

  /** Position of the key that ends the input; `|keys|` when none does. */
  function EndOf(keys: seq<int>): (k: nat)
    ensures k <= |keys|
    ensures k < |keys| ==> Ends(keys[k])
    ensures forall j :: 0 <= j < k ==> !Ends(keys[j])
  {
    if keys == [] || Ends(keys[0]) then 0 else 1 + EndOf(keys[1..])
  }

  /** What the editor hands back for these keys. */
  function Outcome(keys: seq<int>): Result {
    var end := EndOf(keys);
    if end == |keys| then Waiting
    else if keys[end] == NEWLINE then Submitted(Line(keys[..end]) + [0])
    else Cancelled
  }

  /** `handle_input`: Enter returns the stack of bytes left by the keys before it. The
      buffer and its index are handed out as well, as they stand when the input ends. */
  method HandleInput(keys: seq<int>) returns (r: Result, buffer: seq<byte>, index: nat)
    ensures r == Outcome(keys)
    ensures |buffer| == 280 && index < 280 && buffer[..index] == Line(keys[..EndOf(keys)])
    ensures forall j :: index <= j < 280 ==> buffer[j] == 0
  {
    var inputBuffer := new byte[BUFFER_SIZE](_ => 0);
    var i := 0;
    var k := 0;
    while k < |keys|
      invariant 0 <= k <= |keys| && 0 <= i < BUFFER_SIZE
      invariant forall j :: 0 <= j < k ==> !Ends(keys[j])
      invariant inputBuffer[..i] == Line(keys[..k])
      invariant forall j :: i <= j < BUFFER_SIZE ==> inputBuffer[j] == 0
    {
      var key := keys[k];
      assert keys[..k + 1][..k] == keys[..k];
      assert Ends(key) ==> EndOf(keys) == k;
      if key == KEY_F1 || key == KEY_ESC {
        return Cancelled, inputBuffer[..], i;
      } else if key == NEWLINE {
        assert inputBuffer[..i + 1] == inputBuffer[..i] + [0];
        return Submitted(inputBuffer[..i + 1]), inputBuffer[..], i;
      } else if key == KEY_BACKSPACE || key == KEY_DEL {
        if i > 0 {
          i := i - 1;
          inputBuffer[i] := 0;
        }
      } else if i < BUFFER_SIZE - 1 {
        inputBuffer[i] := ByteOf(key);
        i := i + 1;
      }
      k := k + 1;
    }
    assert keys[..|keys|] == keys;
    return Waiting, inputBuffer[..], i;
  }

  // ------------------------------------------------------------------- key by key

  /** No key of `keys` is F1 (265), Escape (27) or Enter (10). */
  predicate Unended(keys: seq<int>) {
    forall j :: 0 <= j < |keys| ==> keys[j] != 265 && keys[j] != 27 && keys[j] != 10
  }

  lemma {:induction false} EndOfFirst(before: seq<int>, rest: seq<int>)
    requires Unended(before)
    ensures EndOf(before + rest) == |before| + EndOf(rest)
  {
    if before == [] {
      assert before + rest == rest;
    } else {
      EndOfFirst(before[1..], rest);
      assert (before + rest)[1..] == before[1..] + rest;
    }
  }

  /** The first F1 or Escape cancels and the first Enter submits the line typed so far,
      whatever would have followed. */
  lemma FirstEndDecides(before: seq<int>, key: int, rest: seq<int>)
    requires Unended(before)
    ensures key == 265 || key == 27 ==> Outcome(before + [key] + rest) == Cancelled
    ensures key == 10 ==> Outcome(before + [key] + rest) == Submitted(Line(before) + [0])
  {
    var keys := before + [key] + rest;
    assert keys == before + ([key] + rest);
    EndOfFirst(before, [key] + rest);
    assert keys[..|before|] == before;
  }

  /** The editor goes on reading exactly as long as none of the three has come. */
  lemma WaitsIffUnended(keys: seq<int>)
    ensures Outcome(keys) == Waiting <==> Unended(keys)
  {
    if Unended(keys) {
      EndOfFirst(keys, []);
      assert keys + [] == keys;
    }
  }

  /** One more key, by its code: Delete (127) and Backspace (263) take the newest byte away
      if there is one; any other key adds its byte exactly while fewer than 279 are held. */
  lemma KeyEdits(before: seq<int>, key: int)
    requires Unended([key])
    ensures var line, next := Line(before), Line(before + [key]);
            if key == 127 || key == 263 then next == if line == [] then [] else line[..|line| - 1]
            else if |line| < 279 then |next| == |line| + 1 && next[..|line|] == line && (next[|line|] as int - key) % 256 == 0
            else next == line
  {
    assert (before + [key])[..|before|] == before;
    assert [key][0] == key;
  }

  /** The first 279 of any number of printable keys make up the line; all later ones are dropped. */
  lemma {:induction false} PrintableLine(keys: seq<int>)
    requires forall j :: 0 <= j < |keys| ==> 32 <= keys[j] <= 126
    ensures |Line(keys)| == if |keys| <= 279 then |keys| else 279
    ensures forall j :: 0 <= j < |Line(keys)| ==> Line(keys)[j] as int == keys[j]
  {
    if keys != [] {
      var last := |keys| - 1;
      PrintableLine(keys[..last]);
      assert keys == keys[..last] + [keys[last]];
      assert Unended([keys[last]]);
      KeyEdits(keys[..last], keys[last]);
    }
  }

  // ---------------------------------------------------------------- which keys survive

  /** Positions of the keys whose bytes make up the line, bottom of the stack first. */
  function Survivors(keys: seq<int>): (live: seq<nat>)
    ensures |live| == |Line(keys)|
  {
    if keys == [] then []
    else
      var before, key := Survivors(keys[..|keys| - 1]), keys[|keys| - 1];
      if Deletes(key) then (if before == [] then [] else before[..|before| - 1])
      else if Types(key) && |before| < BUFFER_SIZE - 1 then before + [|keys| - 1]
      else before
  }

  /** Key `i` was typed while the line still had room. */
  predicate Accepted(keys: seq<int>, i: nat) {
    i < |keys| && Types(keys[i]) && |Line(keys[..i])| < BUFFER_SIZE - 1
  }

  /** Accepted keys minus deletions after key `i` and before position `j`. */
  function Balance(keys: seq<int>, i: nat, j: nat): int
    requires i < j <= |keys|
    decreases j - i
  {
    if j == i + 1 then 0
    else Balance(keys, i, j - 1) +
         if Deletes(keys[j - 1]) then -1 else if Accepted(keys, j - 1) then 1 else 0
  }

  /** No later prefix of the input deletes more than it adds after key `i`. */
  predicate NeverUndone(keys: seq<int>, i: nat)
    requires i < |keys|
  {
    forall j :: i < j <= |keys| ==> Balance(keys, i, j) >= 0
  }

  lemma {:induction false} BalanceBefore(keys: seq<int>, i: nat, j: nat)
    requires i < j < |keys|
    ensures Balance(keys[..|keys| - 1], i, j) == Balance(keys, i, j)
    decreases j - i
  {
    if i + 1 < j {
      BalanceBefore(keys, i, j - 1);
      assert keys[..|keys| - 1][..j - 1] == keys[..j - 1];
    }
  }

  lemma NeverUndoneBefore(keys: seq<int>, i: nat)
    requires i < |keys| - 1
    ensures NeverUndone(keys, i) <==>
              NeverUndone(keys[..|keys| - 1], i) && Balance(keys, i, |keys|) >= 0
  {
    var before := keys[..|keys| - 1];
    if NeverUndone(before, i) && Balance(keys, i, |keys|) >= 0 {
      forall j | i < j <= |keys| ensures Balance(keys, i, j) >= 0 {
        if j < |keys| {
          BalanceBefore(keys, i, j);
        }
      }
    }
    if NeverUndone(keys, i) {
      forall j | i < j <= |before| ensures Balance(before, i, j) >= 0 {
        BalanceBefore(keys, i, j);
      }
    }
  }

  /** Survivors are in typing order. */
  lemma {:induction false} SurvivorsIncrease(keys: seq<int>)
    ensures forall i :: i in Survivors(keys) ==> i < |keys|
    ensures forall p, q :: 0 <= p < q < |Survivors(keys)| ==> Survivors(keys)[p] < Survivors(keys)[q]
  {
    if keys != [] {
      var before := Survivors(keys[..|keys| - 1]);
      SurvivorsIncrease(keys[..|keys| - 1]);
      assert forall p :: 0 <= p < |before| ==> before[p] in before;
    }
  }

  /** The line is the survivors' keys, each cut down to its low eight bits. */
  lemma {:induction false} LineIsSurvivors(keys: seq<int>, p: nat)
    requires p < |Line(keys)|
    ensures Survivors(keys)[p] < |keys|
    ensures (keys[Survivors(keys)[p]] - Line(keys)[p] as int) % 256 == 0
  {
    var before := keys[..|keys| - 1];
    if p < |Line(before)| {
      LineIsSurvivors(before, p);
    }
  }

  /** A survivor at height `p` has above it exactly what was added since and not deleted. */
  lemma {:induction false} HeightAbove(keys: seq<int>, p: nat)
    requires p < |Survivors(keys)|
    ensures var i := Survivors(keys)[p];
            Accepted(keys, i) && Balance(keys, i, |keys|) == |Survivors(keys)| - 1 - p
  {
    var last := |keys| - 1;
    var before := keys[..last];
    if p < |Survivors(before)| {
      HeightAbove(before, p);
      var i := Survivors(before)[p];
      assert keys[..i] == before[..i];
      BalanceBefore(keys, i, last);
      assert Survivors(keys)[p] == i;
    } else {
      assert Survivors(keys)[p] == last;
    }
  }

  /** An earlier survivor survives one more key unless that key deletes it. */
  lemma SurvivesOneMore(keys: seq<int>, i: nat)
    requires i < |keys| - 1
    ensures i in Survivors(keys) <==> i in Survivors(keys[..|keys| - 1]) && Balance(keys, i, |keys|) >= 0
  {
    var before := keys[..|keys| - 1];
    if i in Survivors(before) {
      var p :| 0 <= p < |Survivors(before)| && Survivors(before)[p] == i;
      HeightAbove(before, p);
      BalanceBefore(keys, i, |before|);
      SurvivorsIncrease(before);
      if Balance(keys, i, |keys|) >= 0 {
        assert Survivors(keys)[p] == i;
      }
    }
  }

  lemma {:induction false} NewestSurvives(keys: seq<int>)
    requires keys != []
    ensures |keys| - 1 in Survivors(keys) <==> Accepted(keys, |keys| - 1)
  {
    var before := Survivors(keys[..|keys| - 1]);
    SurvivorsIncrease(keys[..|keys| - 1]);
    assert |keys| - 1 !in before;
  }

  /** For every key sequence: a key's byte is in the line exactly when the key was
      accepted and no later prefix has more deletions than accepted keys since it. */
  lemma {:induction false} SurvivesIff(keys: seq<int>, i: nat)
    ensures i in Survivors(keys) <==> Accepted(keys, i) && NeverUndone(keys, i)
  {
    SurvivorsIncrease(keys);
    if keys != [] {
      var before := keys[..|keys| - 1];
      if i < |before| {
        SurvivesIff(before, i);
        assert before[..i] == keys[..i];
        NeverUndoneBefore(keys, i);
        SurvivesOneMore(keys, i);
      } else if i == |before| {
        NewestSurvives(keys);
        assert Balance(keys, i, |keys|) == 0;
      }
    }
  }

  /** Typed keys minus deletions after key `i`, whether or not there was room for them. */
  function TypedBalance(keys: seq<int>, i: nat, j: nat): int
    requires i < j <= |keys|
    decreases j - i
  {
    if j == i + 1 then 0
    else TypedBalance(keys, i, j - 1) + if Deletes(keys[j - 1]) then -1 else if Types(keys[j - 1]) then 1 else 0
  }

  /** The cap never drops a key. */
  predicate AlwaysRoom(keys: seq<int>) {
    forall k :: 0 <= k < |keys| && Types(keys[k]) ==> Accepted(keys, k)
  }

  lemma {:induction false} RoomMeansTypedBalance(keys: seq<int>, i: nat, j: nat)
    requires i < j <= |keys| && AlwaysRoom(keys)
    ensures Balance(keys, i, j) == TypedBalance(keys, i, j)
    decreases j - i
  {
    if i + 1 < j {
      RoomMeansTypedBalance(keys, i, j - 1);
    }
  }

  predicate TypedNeverUndone(keys: seq<int>, i: nat)
    requires i < |keys|
  {
    forall j :: i < j <= |keys| ==> TypedBalance(keys, i, j) >= 0
  }

  lemma RoomMeansTypedNeverUndone(keys: seq<int>, i: nat)
    requires i < |keys| && AlwaysRoom(keys)
    ensures NeverUndone(keys, i) <==> TypedNeverUndone(keys, i)
  {
    forall j | i < j <= |keys| ensures Balance(keys, i, j) == TypedBalance(keys, i, j) {
      RoomMeansTypedBalance(keys, i, j);
    }
  }

  /** If the cap never drops a key, a typed key survives exactly when no later prefix has
      more deletions than typed keys since it. */
  lemma {:induction false} SurvivesIffUncapped(keys: seq<int>, i: nat)
    requires i < |keys| && Types(keys[i]) && AlwaysRoom(keys)
    ensures i in Survivors(keys) <==> TypedNeverUndone(keys, i)
  {
    SurvivesIff(keys, i);
    RoomMeansTypedNeverUndone(keys, i);
  }
}
