/** Newline-delimited messages: the result does not depend on how the stream is cut into reads. */
module JsonLines {
  import opened Colors
  import opened Sequences

  const NEWLINE: byte := 10

  /// Position of the first newline, or -1.
  function IndexOf(s: seq<byte>): (i: int)
    ensures -1 <= i < |s|
    ensures i >= 0 ==> s[i] == NEWLINE && NEWLINE !in s[..i]
    ensures i == -1 ==> NEWLINE !in s
  {
    if s == [] then -1
    else if s[0] == NEWLINE then 0
    else
      var r := IndexOf(s[1..]);
      assert s == [s[0]] + s[1..];
      assert r >= 0 ==> s[..r+1] == [s[0]] + s[1..][..r];
      if r == -1 then -1 else r + 1
  }

  /// The complete lines of a stream, each with its newline.
  function Lines(s: seq<byte>): seq<seq<byte>> {
    var i := IndexOf(s);
    if i == -1 then [] else [s[..i+1]] + Lines(s[i+1..])
  }

  /// What follows the last newline.
  function Tail(s: seq<byte>): seq<byte>
    decreases |s|
  {
    var i := IndexOf(s);
    if i == -1 then s else Tail(s[i+1..])
  }

  /** The tail has no newline. */
  lemma {:induction false} TailIsUnfinished(s: seq<byte>)
    ensures NEWLINE !in Tail(s)
    decreases |s|
  {
    if IndexOf(s) >= 0 { TailIsUnfinished(s[IndexOf(s)+1..]); }
  }

  lemma FirstLine(s: seq<byte>) returns (line: seq<byte>, rest: seq<byte>)
    requires IndexOf(s) >= 0
    ensures s == line + rest && |rest| < |s| && line == s[..IndexOf(s)+1] && rest == s[IndexOf(s)+1..]
    ensures Lines(s) == [line] + Lines(rest) && Tail(s) == Tail(rest)
  {
    line, rest := s[..IndexOf(s)+1], s[IndexOf(s)+1..];
  }

  /** Lines and tail account for every byte. */
  lemma {:induction false} LinesAccount(s: seq<byte>)
    ensures Joined(Lines(s)) + Tail(s) == s
    decreases |s|
  {
    if IndexOf(s) >= 0 {
      var line, rest := FirstLine(s);
      LinesAccount(rest);
      JoinedCons(line, Lines(rest));
      Assoc(line, Joined(Lines(rest)), Tail(rest));
    }
  }

  /** Every line has exactly one newline, at its end. */
  lemma {:induction false} LinesEndInNewline(s: seq<byte>, k: nat)
    requires k < |Lines(s)|
    ensures var l := Lines(s)[k]; l != [] && l[|l|-1] == NEWLINE && NEWLINE !in l[..|l|-1]
    decreases |s|
  {
    var i := IndexOf(s);
    if k > 0 {
      LinesEndInNewline(s[i+1..], k - 1);
    } else {
      assert s[..i+1][..i] == s[..i];
    }
  }

  lemma IndexOfPrefix(a: seq<byte>, b: seq<byte>)
    requires IndexOf(a) >= 0
    ensures IndexOf(a + b) == IndexOf(a)
  {
    var i, s := IndexOf(a), a + b;
    assert s[i] == NEWLINE && s[..i] == a[..i];
    IndexIsFirst(s, i);
  }

  lemma {:induction false} IndexIsFirst(s: seq<byte>, i: nat)
    requires i < |s| && s[i] == NEWLINE && NEWLINE !in s[..i]
    ensures IndexOf(s) == i
  {
    if i > 0 {
      assert s[0] == s[..i][0] && s[1..][..i-1] == s[..i][1..];
      IndexIsFirst(s[1..], i - 1);
    }
  }

  /** Reading in two steps gives the same as reading at once. */
  lemma {:induction false} LinesOfConcat(a: seq<byte>, b: seq<byte>)
    ensures Lines(a + b) == Lines(a) + Lines(Tail(a) + b)
    ensures Tail(a + b) == Tail(Tail(a) + b)
    decreases |a|
  {
    if IndexOf(a) >= 0 {
      IndexOfPrefix(a, b);
      var line, rest := FirstLine(a);
      var line', rest' := FirstLine(a + b);
      SameLine(a, b, IndexOf(a));
      LinesOfConcat(rest, b);
      Assoc([line], Lines(rest), Lines(Tail(rest) + b));
    } else {
      assert Lines(a) == [] && Tail(a) == a;
    }
  }

  lemma SameLine(a: seq<byte>, b: seq<byte>, i: nat)
    requires i < |a|
    ensures (a + b)[..i+1] == a[..i+1] && (a + b)[i+1..] == a[i+1..] + b
  {}

  const UPGRADE: seq<byte> := [85, 112, 103, 114, 97, 100, 101, 58, 32, 119, 101, 98, 115, 111, 99, 107, 101, 116]

  /** The bytes are the characters that the client sends. */
  lemma Characters()
    ensures NEWLINE == '\n' as int
    ensures |UPGRADE| == |"Upgrade: websocket"|
    ensures forall i | 0 <= i < |UPGRADE| :: UPGRADE[i] == "Upgrade: websocket"[i] as int
  {}

  predicate OccursAt(s: seq<byte>, w: seq<byte>, i: nat) { i + |w| <= |s| && s[i..i + |w|] == w }

  ghost predicate Contains(s: seq<byte>, w: seq<byte>) { exists i: nat :: OccursAt(s, w, i) }

  lemma PartContains(a: seq<byte>, b: seq<byte>, c: seq<byte>, w: seq<byte>)
    ensures Contains(b, w) ==> Contains(a + b + c, w)
  {
    if Contains(b, w) {
      var i: nat :| OccursAt(b, w, i);
      assert (a + b + c)[|a| + i..|a| + i + |w|] == b[i..i + |w|];
      assert OccursAt(a + b + c, w, |a| + i);
    }
  }

  /// The connection while it is a plain socket: buffered bytes and handled messages.
  datatype State = State(buffer: seq<byte>, messages: seq<seq<byte>>)

  /// One read of a plain socket that has not seen an upgrade request.
  function Read(s: State, chunk: seq<byte>): State {
    State(Tail(s.buffer + chunk), s.messages + Lines(s.buffer + chunk))
  }

  function ReadAll(s: State, chunks: seq<seq<byte>>): State {
    if chunks == [] then s else Read(ReadAll(s, chunks[..|chunks|-1]), chunks[|chunks|-1])
  }

  /** Any split of a stream yields exactly its newline-terminated lines, with the unfinished tail
      buffered. */
  lemma {:induction false} ChunkingIsIrrelevant(chunks: seq<seq<byte>>)
    ensures ReadAll(State([], []), chunks) == State(Tail(Joined(chunks)), Lines(Joined(chunks)))
  {
    if chunks != [] {
      var m := |chunks| - 1;
      ChunkingIsIrrelevant(chunks[..m]);
      LinesOfConcat(Joined(chunks[..m]), chunks[m]);
    } else {
      assert IndexOf([]) == -1;
    }
  }

  /** If the upgrade string does not occur in a stream, no read ever sees it. */
  lemma {:induction false} NoUpgradeSeen(chunks: seq<seq<byte>>, n: nat)
    requires !Contains(Joined(chunks), UPGRADE) && n < |chunks|
    ensures !Contains(ReadAll(State([], []), chunks[..n]).buffer + chunks[n], UPGRADE)
    decreases |chunks|
  {
    var m := |chunks| - 1;
    var before, last := chunks[..m], chunks[m];
    var stream := Joined(before);
    if n < m {
      assert [] + stream + last == Joined(chunks);
      PartContains([], stream, last, UPGRADE);
      assert before[..n] == chunks[..n];
      NoUpgradeSeen(before, n);
    } else {
      ChunkingIsIrrelevant(before);
      LastReadClean(stream, last);
    }
  }

  lemma LastReadClean(stream: seq<byte>, last: seq<byte>)
    requires !Contains(stream + last, UPGRADE)
    ensures !Contains(Tail(stream) + last, UPGRADE)
  {
    LinesAccount(stream);
    PartContains(Joined(Lines(stream)), Tail(stream) + last, [], UPGRADE);
    assert Joined(Lines(stream)) + (Tail(stream) + last) + [] == stream + last;
  }
}
