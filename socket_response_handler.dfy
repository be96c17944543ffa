/**
 * `SocketResponseHandler`: classifying one decoded chunk of server text as
 * a chat post or a presence notice (`convert`), and one read cycle over the
 * input stream (`receivedMessage`).
 */
module SocketResponseHandler {
  import opened Wrappers
  import opened StringOps
  import opened ChatModel

  /*
   * ---------------------------------------------------------------------
   * convert
   * ---------------------------------------------------------------------
   */

  /**
   * `convert(_:)`: remove every NUL, then test for the message separator,
   * the join postfix and the leave postfix, in that order. A post is split
   * at the separator into its first and last component; a notice keeps the
   * text before the first postfix as the name and the postfix as content.
   */
  function Convert(message: string, room: ChatRoom): (r: Option<Message>)
    requires room.WellFormed()
    ensures r.Some? && r.value.Connection? ==>
      r.value.content == room.joinPostfix || r.value.content == room.leavePostfix
  {
    var message := RemoveNulls(message);
    if Contains(message, room.messageSeparator) then
      var elements := Components(message, room.messageSeparator);
      match First(elements)
      case None => None
      case Some(sender) =>
        match Last(elements)
        case None => None
        case Some(content) => Some(Chat(sender, content))
    else if Contains(message, room.joinPostfix) then
      match First(Components(message, room.joinPostfix))
      case None => None
      case Some(sender) => Some(Connection(sender, room.joinPostfix))
    else if Contains(message, room.leavePostfix) then
      match First(Components(message, room.leavePostfix))
      case None => None
      case Some(sender) => Some(Connection(sender, room.leavePostfix))
    else
      None
  }

  /**
   * Text with none of the three markers, once NULs are removed, yields
   * `nil`, and every other text yields a message.
   */
  lemma UnrecognisedIsNil(message: string, room: ChatRoom)
    requires room.WellFormed()
    ensures var text := RemoveNulls(message);
      Convert(message, room).None? <==>
        !Contains(text, room.messageSeparator) &&
        !Contains(text, room.joinPostfix) &&
        !Contains(text, room.leavePostfix)
  {
  }

  /**
   * Every NUL is removed before classification: no name contains NUL, and
   * neither does the content of a chat post.
   */
  lemma NoNulInResult(message: string, room: ChatRoom)
    requires room.WellFormed()
    requires Convert(message, room).Some?
    ensures Nul !in Convert(message, room).value.name
    ensures Convert(message, room).value.Chat? ==> Nul !in Convert(message, room).value.content
  {
    var text := RemoveNulls(message);
    if Contains(text, room.messageSeparator) {
      PartsOfNulFree(text, room.messageSeparator);
    } else if Contains(text, room.joinPostfix) {
      PartsOfNulFree(text, room.joinPostfix);
    } else {
      PartsOfNulFree(text, room.leavePostfix);
    }
  }

  /** The first and the last component of a NUL-free text are NUL-free. */
  lemma PartsOfNulFree(s: string, sep: string)
    requires |sep| > 0
    requires Nul !in s
    ensures Nul !in Components(s, sep)[0]
    ensures Nul !in LastComponent(s, sep)
  {
    if Contains(s, sep) {
      var i := IndexOf(s, sep).value;
      assert Components(s, sep)[0] == s[..i];
      assert forall c :: c in s[..i] ==> c in s;
      ComponentsLast(s, sep);
      var last := LastComponent(s, sep);
      var tail := s[|s| - |last| - |sep|..];
      assert tail[|sep|..] == last;
      assert forall c :: c in last ==> c in tail;
      assert forall c :: c in tail ==> c in s;
    }
  }

  /** Only the NUL-free text matters: removing NULs beforehand changes nothing. */
  lemma ConvertIgnoresNuls(message: string, room: ChatRoom)
    requires room.WellFormed()
    ensures Convert(RemoveNulls(message), room) == Convert(message, room)
  {
    RemoveNullsIdempotent(message);
  }

  /** `n` NUL characters: the unused tail of a fixed-size buffer. */
  function Padding(n: nat): (p: string)
  {
    seq(n, _ => Nul)
  }

  /** NUL padding after a frame does not change how it is classified. */
  lemma {:induction false} PaddingIgnored(message: string, n: nat, room: ChatRoom)
    requires room.WellFormed()
    ensures Convert(message + Padding(n), room) == Convert(message, room)
  {
    RemoveNullsAppend(message, Padding(n));
    PaddingVanishes(n);
    assert RemoveNulls(message) + [] == RemoveNulls(message);
  }

  /** Removing NULs from padding leaves nothing. */
  lemma {:induction false} PaddingVanishes(n: nat)
    ensures RemoveNulls(Padding(n)) == []
  {
    if n > 0 {
      assert Padding(n)[1..] == Padding(n - 1);
      PaddingVanishes(n - 1);
    }
  }

  /**
   * The separator takes precedence: whenever the stripped text contains it,
   * the result is a chat post, whatever postfixes the text also contains.
   * Conversely a chat post only comes from text that contains it.
   */
  lemma SeparatorTakesPrecedence(message: string, room: ChatRoom)
    requires room.WellFormed()
    ensures var r := Convert(message, room);
      Contains(RemoveNulls(message), room.messageSeparator) <==> r.Some? && r.value.Chat?
  {
  }

  /**
   * A chat post: the name is the text before the first separator and the
   * content is the text after the last separator matched; neither contains
   * the separator, and name, first separator and content do not overlap.
   */
  lemma {:induction false} ChatParts(message: string, room: ChatRoom)
    requires room.WellFormed()
    requires Convert(message, room).Some? && Convert(message, room).value.Chat?
    ensures var text, sep := RemoveNulls(message), room.messageSeparator;
      var m := Convert(message, room).value;
      && Contains(text, sep)
      && m.name == text[..IndexOf(text, sep).value]
      && |m.name| + |sep| + |m.content| <= |text|
      && text[|text| - |m.content| - |sep|..] == sep + m.content
      && !Contains(m.name, sep)
      && !Contains(m.content, sep)
  {
    var text, sep := RemoveNulls(message), room.messageSeparator;
    var parts := Components(text, sep);
    assert Contains(text, sep) by {
      SeparatorTakesPrecedence(message, room);
    }
    assert Convert(message, room) == Some(Chat(parts[0], LastComponent(text, sep))) by {
      RemoveNullsIdempotent(message);
      ConvertIgnoresNuls(message, room);
      ConvertPost(text, room);
    }
    ComponentsLast(text, sep);
    ComponentAvoidsSeparator(text, sep, 0);
    ComponentAvoidsSeparator(text, sep, |parts| - 1);
    assert parts[|parts| - 1] == LastComponent(text, sep);
  }

  /**
   * The join postfix is consulted only when the separator is absent; the
   * notice names the text before the first postfix and carries the postfix.
   */
  lemma JoinNotice(message: string, room: ChatRoom)
    requires room.WellFormed()
    requires !Contains(RemoveNulls(message), room.messageSeparator)
    requires Contains(RemoveNulls(message), room.joinPostfix)
    ensures var text := RemoveNulls(message);
      Convert(message, room) ==
        Some(Connection(text[..IndexOf(text, room.joinPostfix).value], room.joinPostfix))
  {
  }

  /**
   * The leave postfix is consulted only when neither the separator nor the
   * join postfix occurs; the notice names the text before the first postfix.
   */
  lemma LeaveNotice(message: string, room: ChatRoom)
    requires room.WellFormed()
    requires !Contains(RemoveNulls(message), room.messageSeparator)
    requires !Contains(RemoveNulls(message), room.joinPostfix)
    requires Contains(RemoveNulls(message), room.leavePostfix)
    ensures var text := RemoveNulls(message);
      Convert(message, room) ==
        Some(Connection(text[..IndexOf(text, room.leavePostfix).value], room.leavePostfix))
  {
  }

  /**
   * Round trip of a post: the NUL-free name `s` and content `c`, with the
   * separator between them, come back unchanged, provided the content does
   * not contain the separator and the first occurrence of the separator in
   * `s + sep` is the one after `s` (in particular `s` does not contain it).
   * Empty content and an empty name are included.
   */
  lemma ChatRoundTrip(s: string, c: string, room: ChatRoom)
    requires room.WellFormed()
    requires Nul !in s && Nul !in c && Nul !in room.messageSeparator
    requires IndexOf(s + room.messageSeparator, room.messageSeparator) == Some(|s|)
    requires !Contains(c, room.messageSeparator)
    ensures Convert(s + room.messageSeparator + c, room) == Some(Chat(s, c))
  {
    var sep := room.messageSeparator;
    var text := s + sep + c;
    assert RemoveNulls(text) == text by {
      assert Nul !in text;
    }
    assert Contains(text, sep) by {
      assert OccursAt(text, sep, |s|) by { assert text[|s|..|s| + |sep|] == sep; }
    }
    assert Components(text, sep) == [s, c] by {
      SplitTwo(s, sep, c);
    }
    ConvertPost(text, room);
  }

  /** A NUL-free text that contains the separator is the post of its first and last component. */
  lemma ConvertPost(text: string, room: ChatRoom)
    requires room.WellFormed()
    requires RemoveNulls(text) == text
    requires Contains(text, room.messageSeparator)
    ensures Convert(text, room) == Some(Chat(Components(text, room.messageSeparator)[0],
                                            LastComponent(text, room.messageSeparator)))
  {
  }

  /**
   * For a separator with no proper prefix equal to a suffix (for instance a
   * single character), any name and content that contain neither NUL nor
   * the separator make the round trip.
   */
  lemma ChatRoundTripUnbordered(s: string, c: string, room: ChatRoom)
    requires room.WellFormed() && Unbordered(room.messageSeparator)
    requires Nul !in s && Nul !in c && Nul !in room.messageSeparator
    requires !Contains(s, room.messageSeparator) && !Contains(c, room.messageSeparator)
    ensures Convert(s + room.messageSeparator + c, room) == Some(Chat(s, c))
  {
    FirstOccurrenceAfter(s, room.messageSeparator, []);
    assert s + room.messageSeparator + [] == s + room.messageSeparator;
    ChatRoundTrip(s, c, room);
  }

  /** The code does not reject an empty name: a text that starts with the separator is a post from "". */
  lemma EmptySenderAccepted(c: string, room: ChatRoom)
    requires room.WellFormed()
    requires Nul !in c && Nul !in room.messageSeparator
    requires !Contains(c, room.messageSeparator)
    ensures Convert(room.messageSeparator + c, room) == Some(Chat([], c))
  {
    var sep := room.messageSeparator;
    assert OccursAt(sep, sep, 0) by { assert sep[0..|sep|] == sep; }
    assert [] + sep == sep;
    ChatRoundTrip([], c, room);
    assert [] + sep + c == sep + c;
  }

  /**
   * Without the straddling condition the round trip fails: with separator
   * "::", the name "bob:" and the content "hi" come back as "bob" and ":hi".
   */
  lemma RoundTripNeedsFirstSeparator()
    ensures var room := ChatRoom("::", " has joined", " has left");
      Convert("bob:" + "::" + "hi", room) == Some(Chat("bob", ":hi"))
  {
    var room := ChatRoom("::", " has joined", " has left");
    var text := "bob:::hi";
    assert "bob:" + "::" + "hi" == text;
    assert RemoveNulls(text) == text by {
      assert Nul !in text;
    }
    StraddledSplit();
    assert LastComponent(text, "::") == ":hi";
    ConvertPost(text, room);
  }

  /** "bob:::hi" splits at "::" into "bob" and ":hi". */
  lemma StraddledSplit()
    ensures Components("bob:::hi", "::") == ["bob", ":hi"]
  {
    var text := "bob:::hi";
    StraddledFirstOccurrence();
    NoSeparatorInRest();
    assert text[..3] == "bob";
    assert text[5..] == ":hi";
  }

  lemma StraddledFirstOccurrence()
    ensures IndexOf("bob:::hi", "::") == Some(3)
  {
    var text := "bob:::hi";
    assert text[3..5] == "::";
    assert text[0..2] == "bo" && text[1..3] == "ob" && text[2..4] == "b:";
    FirstOccurrenceIs(text, "::", 3);
  }

  lemma NoSeparatorInRest()
    ensures IndexOf(":hi", "::").None?
  {
    assert ":hi"[0..2] == ":h" && ":hi"[1..3] == "hi";
    assert forall j :: !OccursAt(":hi", "::", j);
  }

  /**
   * Round trip of a presence notice: a NUL-free name followed by the join
   * postfix, with no separator anywhere and the first postfix right after
   * the name, is a join notice for that name.
   */
  lemma JoinRoundTrip(name: string, room: ChatRoom)
    requires room.WellFormed()
    requires Nul !in name && Nul !in room.joinPostfix
    requires !Contains(name + room.joinPostfix, room.messageSeparator)
    requires IndexOf(name + room.joinPostfix, room.joinPostfix) == Some(|name|)
    ensures Convert(name + room.joinPostfix, room) == Some(Connection(name, room.joinPostfix))
  {
    var text := name + room.joinPostfix;
    assert RemoveNulls(text) == text by {
      assert Nul !in text;
    }
    JoinNotice(text, room);
    assert text[..|name|] == name;
  }

  /** The same for the leave postfix, when the text also lacks the join postfix. */
  lemma LeaveRoundTrip(name: string, room: ChatRoom)
    requires room.WellFormed()
    requires Nul !in name && Nul !in room.leavePostfix
    requires !Contains(name + room.leavePostfix, room.messageSeparator)
    requires !Contains(name + room.leavePostfix, room.joinPostfix)
    requires IndexOf(name + room.leavePostfix, room.leavePostfix) == Some(|name|)
    ensures Convert(name + room.leavePostfix, room) == Some(Connection(name, room.leavePostfix))
  {
    var text := name + room.leavePostfix;
    assert RemoveNulls(text) == text by {
      assert Nul !in text;
    }
    LeaveNotice(text, room);
    assert text[..|name|] == name;
  }

  /*
   * ---------------------------------------------------------------------
   * receivedMessage
   * ---------------------------------------------------------------------
   */

  newtype byte = x: int | 0 <= x < 256

  /**
   * What one `read(_:maxLength:)` on the input stream gives: some bytes, or
   * a negative count together with a stream error.
   */
  datatype ReadResult = Chunk(bytes: seq<byte>) | ReadError

  /** The stream never hands over more bytes than were asked for. */
  predicate ChunksFit(stream: seq<ReadResult>, maxBufferSize: nat) {
    forall i :: 0 <= i < |stream| && stream[i].Chunk? ==> |stream[i].bytes| <= maxBufferSize
  }

  /** A read that ends the cycle with `nil`: a read error, or bytes that are not UTF-8. */
  predicate Aborts(read: ReadResult, decode: seq<byte> -> Option<string>) {
    read.ReadError? || decode(read.bytes).None?
  }

  /**
   * The outcome of a read cycle over `stream`, the reads that happen while
   * bytes are available: `nil` if any read aborts; otherwise `nil` when no
   * read happens at all, and the conversion of the last chunk's text when
   * some do.
   */
  function CycleOutcome(stream: seq<ReadResult>, decode: seq<byte> -> Option<string>, room: ChatRoom): (r: Option<Message>)
    requires room.WellFormed()
  {
    if exists i :: 0 <= i < |stream| && Aborts(stream[i], decode) then None
    else if |stream| == 0 then None
    else Convert(decode(stream[|stream| - 1].bytes).value, room)
  }

  /** The texts handed to `convert` before the cycle ends, in order. */
  function Converted(stream: seq<ReadResult>, decode: seq<byte> -> Option<string>): (texts: seq<string>)
    ensures |texts| <= |stream|
    ensures |texts| < |stream| ==> Aborts(stream[|texts|], decode)
  {
    if |stream| == 0 || Aborts(stream[0], decode) then []
    else [decode(stream[0].bytes).value] + Converted(stream[1..], decode)
  }

  /**
   * The `k`-th text handed to `convert` is the decoding of the `k`-th
   * chunk, and every read before the cycle ends succeeds.
   */
  lemma {:induction false} ConvertedAt(stream: seq<ReadResult>, decode: seq<byte> -> Option<string>, k: nat)
    requires k < |Converted(stream, decode)|
    ensures !Aborts(stream[k], decode)
    ensures decode(stream[k].bytes) == Some(Converted(stream, decode)[k])
  {
    if k > 0 {
      ConvertedAt(stream[1..], decode, k - 1);
    }
  }

  /** The conversions stop at the first read that aborts. */
  lemma ConvertedStops(stream: seq<ReadResult>, decode: seq<byte> -> Option<string>, n: nat)
    requires n < |stream| && Aborts(stream[n], decode)
    requires n <= |Converted(stream, decode)|
    ensures Converted(stream, decode) == Converted(stream, decode)[..n]
  {
    if n < |Converted(stream, decode)| {
      ConvertedAt(stream, decode, n);
    }
  }

  /** When the first `n` reads succeed, the first `n` chunks are all converted. */
  lemma ConvertedStep(stream: seq<ReadResult>, decode: seq<byte> -> Option<string>, n: nat)
    requires n < |stream| && !Aborts(stream[n], decode)
    requires n <= |Converted(stream, decode)|
    ensures n < |Converted(stream, decode)|
    ensures Converted(stream, decode)[..n + 1] == Converted(stream, decode)[..n] + [decode(stream[n].bytes).value]
  {
    ConvertedAt(stream, decode, n);
    assert Converted(stream, decode)[..n + 1] == Converted(stream, decode)[..n] + [Converted(stream, decode)[n]];
  }

  /**
   * `inputStream.read(pointer, maxLength: buffer.Length)`: a chunk is
   * written to the front of the buffer and its length returned; the rest of
   * the buffer keeps whatever an earlier read left there. A read error
   * returns a negative count.
   */
  method Read(read: ReadResult, buffer: array<byte>) returns (numberOfBytesRead: int)
    requires read.Chunk? ==> |read.bytes| <= buffer.Length
    modifies buffer
    ensures read.ReadError? ==> numberOfBytesRead < 0 && unchanged(buffer)
    ensures read.Chunk? ==> numberOfBytesRead == |read.bytes|
    ensures read.Chunk? ==> buffer[..numberOfBytesRead] == read.bytes
    ensures read.Chunk? ==> buffer[numberOfBytesRead..] == old(buffer[numberOfBytesRead..])
  {
    if read.ReadError? {
      return -1;
    }
    var n := |read.bytes|;
    for k := 0 to n
      invariant buffer[..k] == read.bytes[..k]
      invariant buffer[n..] == old(buffer[n..])
    {
      buffer[k] := read.bytes[k];
    }
    numberOfBytesRead := n;
  }

  /**
   * `receivedMessage(inputStream:)`: while bytes are available, read at most
   * `maxBufferSize` bytes into one buffer, decode exactly the bytes read and
   * convert the text, each conversion replacing the previous one. A read
   * error or a chunk that does not decode returns `nil` at once.
   * `converted` records the texts passed to `convert`.
   */
  method ReceivedMessage(stream: seq<ReadResult>, maxBufferSize: nat, decode: seq<byte> -> Option<string>, room: ChatRoom)
    returns (convertedMessage: Option<Message>, ghost converted: seq<string>)
    requires room.WellFormed()
    requires ChunksFit(stream, maxBufferSize)
    ensures convertedMessage == CycleOutcome(stream, decode, room)
    ensures converted == Converted(stream, decode)
  {
    var buffer := new byte[maxBufferSize];
    convertedMessage := None;
    converted := [];
    var i := 0;
    while i < |stream|
      invariant 0 <= i <= |stream|
      invariant buffer.Length == maxBufferSize
      invariant i <= |Converted(stream, decode)|
      invariant converted == Converted(stream, decode)[..i]
      invariant i == 0 ==> convertedMessage == None
      invariant i > 0 ==> convertedMessage == Convert(converted[i - 1], room)
    {
      var numberOfBytesRead := Read(stream[i], buffer);
      if numberOfBytesRead < 0 {
        assert Aborts(stream[i], decode);
        ConvertedStops(stream, decode, i);
        CycleAborts(stream, decode, room, i);
        convertedMessage := None;
        return;
      }
      var message := decode(buffer[..numberOfBytesRead]);
      assert message == decode(stream[i].bytes);
      if message.None? {
        assert Aborts(stream[i], decode);
        ConvertedStops(stream, decode, i);
        CycleAborts(stream, decode, room, i);
        convertedMessage := None;
        return;
      }
      assert !Aborts(stream[i], decode);
      ConvertedStep(stream, decode, i);
      convertedMessage := Convert(message.value, room);
      converted := converted + [message.value];
      i := i + 1;
    }
    forall j | 0 <= j < |stream|
      ensures !Aborts(stream[j], decode)
    {
      ConvertedAt(stream, decode, j);
    }
    if i > 0 {
      ConvertedAt(stream, decode, i - 1);
    }
    CycleCompletes(stream, decode, room);
  }

  /** A cycle in which some read aborts yields `nil`. */
  lemma CycleAborts(stream: seq<ReadResult>, decode: seq<byte> -> Option<string>, room: ChatRoom, i: nat)
    requires room.WellFormed()
    requires i < |stream| && Aborts(stream[i], decode)
    ensures CycleOutcome(stream, decode, room) == None
  {
  }

  /** A cycle in which no read aborts yields the conversion of the last chunk, or `nil` without chunks. */
  lemma CycleCompletes(stream: seq<ReadResult>, decode: seq<byte> -> Option<string>, room: ChatRoom)
    requires room.WellFormed()
    requires forall j :: 0 <= j < |stream| ==> !Aborts(stream[j], decode)
    ensures |stream| == 0 ==> CycleOutcome(stream, decode, room) == None
    ensures |stream| > 0 ==>
      !Aborts(stream[|stream| - 1], decode) &&
      CycleOutcome(stream, decode, room) == Convert(decode(stream[|stream| - 1].bytes).value, room)
  {
  }

  /**
   * The last chunk wins: when no read aborts, a cycle's message is the
   * conversion of the final chunk, whatever the chunks before it held.
   */
  lemma LastChunkWins(earlier: seq<ReadResult>, last: ReadResult, decode: seq<byte> -> Option<string>, room: ChatRoom)
    requires room.WellFormed()
    requires forall j :: 0 <= j < |earlier| ==> !Aborts(earlier[j], decode)
    requires !Aborts(last, decode)
    ensures CycleOutcome(earlier + [last], decode, room) == Convert(decode(last.bytes).value, room)
    ensures CycleOutcome(earlier + [last], decode, room) == CycleOutcome([last], decode, room)
  {
    var stream := earlier + [last];
    forall j | 0 <= j < |stream| ensures !Aborts(stream[j], decode) {
      if j < |earlier| {
        assert stream[j] == earlier[j];
      }
    }
  }

  /**
   * A read error or an undecodable chunk makes the whole cycle `nil`,
   * discarding what was converted before it and ignoring what follows.
   */
  lemma AbortDiscardsEarlier(earlier: seq<ReadResult>, bad: ReadResult, later: seq<ReadResult>,
                             decode: seq<byte> -> Option<string>, room: ChatRoom)
    requires room.WellFormed()
    requires Aborts(bad, decode)
    ensures CycleOutcome(earlier + [bad] + later, decode, room) == None
  {
    assert (earlier + [bad] + later)[|earlier|] == bad;
  }

  /** With no bytes available there is no read and no conversion, and the result is `nil`. */
  lemma EmptyCycle(decode: seq<byte> -> Option<string>, room: ChatRoom)
    requires room.WellFormed()
    ensures CycleOutcome([], decode, room) == None
    ensures Converted([], decode) == []
  {
  }
}
