# StreamChat socket response handler, modelled in Dafny

StreamChat is an iOS chat client that talks to a line-oriented chat server
over a TCP socket. Everything the server sends is handled by
`SocketResponseHandler`, which has two parts:

- `convert(_:)` classifies one decoded chunk of text. It removes every NUL
  character, then looks for three markers in a fixed order: the message
  separator, the join postfix and the leave postfix. Text with the separator
  is a chat post. The sender is the first component and the content is the
  last component of `components(separatedBy:)`. Text with a postfix is a
  presence notice. Its name is the text before the first postfix and its
  content is the postfix itself. Any other text gives `nil`.
- `receivedMessage(inputStream:)` runs one read cycle. While the stream has
  bytes available, it reads at most `maxBufferSize` bytes into a buffer,
  decodes exactly the bytes read as UTF-8 and converts the text. Each
  conversion replaces the previous one, so the last chunk wins. A read error
  or a chunk that is not valid UTF-8 ends the cycle with `nil` at once.

The project has four files:

- `wrappers.dfy` (module `Wrappers`): `Option`, `first` and `last`.
- `strings.dfy` (module `StringOps`): the Foundation string operations the
  classifier uses, each with an explicit definition.
  - `RemoveNulls` is `replacingOccurrences(of: "\0", with: "")`.
  - `IndexOf` and `Contains` are first-occurrence search and `contains`.
  - `Components` is `components(separatedBy:)`. It splits at every
    non-overlapping occurrence, scanning left to right, and always yields at
    least one component. `Join` undoes the split (`JoinComponents`).
- `messages.dfy` (module `ChatModel`): the marker tokens (`ChatRoom`) and the
  `Message` values.
- `socket_response_handler.dfy` (module `SocketResponseHandler`):
  - `Convert` with lemmas for each branch, precedence, NUL handling and round
    trips.
  - The read cycle: a `Read` method that fills an `array` buffer, the loop
    `ReceivedMessage`, and the reference functions `CycleOutcome` and
    `Converted` that it is proved against.

The input stream is a sequence of read results. Each result is either a
chunk of bytes or a read error. "Has bytes available" means that results
remain. UTF-8 decoding is a partial function passed in as a parameter. The
three marker strings are a `ChatRoom` value, required to be non-empty.

Some behaviour of the code is easy to get wrong, and the model keeps it:

- The code accepts a post with an empty sender (`EmptySenderAccepted`).
- The content of a post is the last component, the text after the last
  separator matched, not everything after the first separator (`ChatParts`,
  `ConvertPost`, `RoundTripNeedsFirstSeparator`).
- A presence notice carries the postfix string itself as its content, not a
  join or leave event.
- A read failure ends the cycle with `nil`. No error value is returned.

## Model

| member | source | states |
|---|---|---|
| StringOps.RemoveNulls | StreamChat/StreamChat/Model/SocketResponseHandler.swift:36 | the result contains no NUL, is the input itself when the input has none, and is no longer than the input |
| StringOps.RemoveNullsAppend | StreamChat/StreamChat/Model/SocketResponseHandler.swift:36 | removing NULs from a concatenation removes them from each part: the replacement works character by character |
| StringOps.IndexOf | StreamChat/StreamChat/Model/SocketResponseHandler.swift:38 | a found index is an occurrence with no occurrence before it, and no index is found exactly when the marker occurs nowhere (`contains`) |
| StringOps.Components | StreamChat/StreamChat/Model/SocketResponseHandler.swift:39 | there is always at least one component, exactly one when the separator does not occur, and otherwise the first is the text before the first occurrence |
| StringOps.JoinComponents | StreamChat/StreamChat/Model/SocketResponseHandler.swift:39 | joining the components with the separator gives back the text, so the split loses nothing |
| StringOps.ComponentAvoidsSeparator | StreamChat/StreamChat/Model/SocketResponseHandler.swift:39 | no component contains the separator |
| StringOps.ComponentsLast | StreamChat/StreamChat/Model/SocketResponseHandler.swift:39-41 | a text with the separator has at least two components; the text ends with the separator followed by the last component, and the first component, that separator and the last component do not overlap |
| StringOps.SplitTwo | StreamChat/StreamChat/Model/SocketResponseHandler.swift:39 | `s + sep + c` splits into exactly `[s, c]` when the first occurrence of `sep` is the one after `s` and `c` does not contain `sep` |
| SocketResponseHandler.Convert | StreamChat/StreamChat/Model/SocketResponseHandler.swift:43-50 | a presence notice carries the join or the leave postfix as its content |
| SocketResponseHandler.UnrecognisedIsNil | StreamChat/StreamChat/Model/SocketResponseHandler.swift:38-52 | the result is `nil` if and only if the NUL-stripped text contains none of the three markers |
| SocketResponseHandler.NoNulInResult | StreamChat/StreamChat/Model/SocketResponseHandler.swift:36-49 | no returned name contains NUL, and neither does the content of a chat post |
| SocketResponseHandler.ConvertIgnoresNuls | StreamChat/StreamChat/Model/SocketResponseHandler.swift:36 | removing NULs before converting changes nothing |
| SocketResponseHandler.PaddingIgnored | StreamChat/StreamChat/Model/SocketResponseHandler.swift:36 | any number of NULs after a text do not change its classification |
| SocketResponseHandler.SeparatorTakesPrecedence | StreamChat/StreamChat/Model/SocketResponseHandler.swift:38-42 | the result is a chat post if and only if the stripped text contains the separator, whatever postfixes it also contains |
| SocketResponseHandler.ChatParts | StreamChat/StreamChat/Model/SocketResponseHandler.swift:39-42 | the name of a post is the text before the first separator; the text ends with a separator followed by the content; neither part contains the separator, and the two do not overlap |
| SocketResponseHandler.ConvertPost | StreamChat/StreamChat/Model/SocketResponseHandler.swift:38-42 | a NUL-free text with the separator is the post of its first and its last component |
| SocketResponseHandler.JoinNotice | StreamChat/StreamChat/Model/SocketResponseHandler.swift:43-46 | without the separator, a text with the join postfix is a join notice naming the text before the first postfix |
| SocketResponseHandler.LeaveNotice | StreamChat/StreamChat/Model/SocketResponseHandler.swift:47-50 | without the separator and the join postfix, a text with the leave postfix is a leave notice naming the text before the first postfix |
| SocketResponseHandler.ChatRoundTrip | StreamChat/StreamChat/Model/SocketResponseHandler.swift:36-42 | `s + sep + c` converts back to the post `(s, c)` for NUL-free `s` and `c` when `c` lacks the separator and the first separator is the one after `s`; empty `s` and `c` included |
| SocketResponseHandler.ChatRoundTripUnbordered | StreamChat/StreamChat/Model/SocketResponseHandler.swift:36-42 | for a separator with no proper prefix equal to a suffix, every NUL-free `s` and `c` without the separator make the round trip |
| SocketResponseHandler.EmptySenderAccepted | StreamChat/StreamChat/Model/SocketResponseHandler.swift:39-42 | a text that starts with the separator is a post whose name is empty |
| SocketResponseHandler.RoundTripNeedsFirstSeparator | StreamChat/StreamChat/Model/SocketResponseHandler.swift:39-42 | with separator "::", the name "bob:" and content "hi" come back as "bob" and ":hi", so the round trip needs its hypothesis |
| SocketResponseHandler.JoinRoundTrip | StreamChat/StreamChat/Model/SocketResponseHandler.swift:43-46 | a NUL-free name followed by the join postfix, with no separator and no earlier postfix, is a join notice for that name |
| SocketResponseHandler.LeaveRoundTrip | StreamChat/StreamChat/Model/SocketResponseHandler.swift:47-50 | the same for the leave postfix, when the text also lacks the join postfix |
| SocketResponseHandler.ConvertedAt | StreamChat/StreamChat/Model/SocketResponseHandler.swift:25-30 | the k-th text handed to `convert` is the decoding of the k-th chunk, and no read before the cycle ends aborts |
| SocketResponseHandler.ConvertedStops | StreamChat/StreamChat/Model/SocketResponseHandler.swift:21-29 | no text is converted at or after the first read that fails or does not decode |
| SocketResponseHandler.Read | StreamChat/StreamChat/Model/SocketResponseHandler.swift:20 | a read error returns a negative count and leaves the buffer alone; a chunk is written to the front of the buffer, its length is returned and the rest of the buffer is unchanged |
| SocketResponseHandler.ReceivedMessage | StreamChat/StreamChat/Model/SocketResponseHandler.swift:16-33 | the loop returns `CycleOutcome` of the stream, and the texts it converts are exactly `Converted` of the stream |
| SocketResponseHandler.CycleAborts | StreamChat/StreamChat/Model/SocketResponseHandler.swift:21-29 | a cycle with a failed read or an undecodable chunk yields `nil` |
| SocketResponseHandler.CycleCompletes | StreamChat/StreamChat/Model/SocketResponseHandler.swift:19-32 | a cycle in which no read aborts yields the conversion of the last chunk, or `nil` when no read happens |
| SocketResponseHandler.LastChunkWins | StreamChat/StreamChat/Model/SocketResponseHandler.swift:30-32 | when no read aborts, earlier chunks do not matter: the cycle's result is that of the last chunk alone |
| SocketResponseHandler.AbortDiscardsEarlier | StreamChat/StreamChat/Model/SocketResponseHandler.swift:21-29 | one aborting read makes the cycle `nil`, whatever was converted before it and whatever follows |
| SocketResponseHandler.EmptyCycle | StreamChat/StreamChat/Model/SocketResponseHandler.swift:18-32 | with no bytes available nothing is converted and the result is `nil` |

## Left out

- `ChatRoomManager.swift` is not part of this model. It opens, schedules and closes the socket streams, writes outbound posts through raw pointers and forwards events to a delegate. All of that is I/O.
- `ChatPostFormat` and the `ChatRoom` marker constants are not part of this model. Their values are not known here, so the markers are a `ChatRoom` parameter and the outbound encoding is not modelled.
- The `Date()` timestamp of a chat post is not modelled, because it is wall-clock time.
- Raw memory is not modelled. The code allocates the buffer once and, through `freeWhenDone: true`, frees it after the first decode while still reusing it. The model allocates one array per cycle and reuses it, without freeing.
- UTF-8 validation is the `decode` parameter, so its internals are not modelled.
- The `print` of the stream error is left out, because it is output only.
- The stream itself is a sequence of read results. Blocking reads, timing and how the stream decides that bytes are available are outside the model. That a chunk is never longer than `maxBufferSize` is the stream's promise (`ChunksFit`).
- A negative count without a stream error is not modelled. `ReadError` stands for a negative count together with an error. In the code the other case goes on to decode a negative length.
- Swift compares strings by Unicode canonical equivalence over grapheme clusters. The model compares characters one for one.
- Convert: its own contract states only the content of a presence notice. The full classification is stated by `UnrecognisedIsNil`, `SeparatorTakesPrecedence`, `ConvertPost` (with `ConvertIgnoresNuls` for text that holds NULs), `ChatParts`, `JoinNotice`, `LeaveNotice` and `NoNulInResult`, which keeps the proof of the read loop small.
- ChatRoundTrip: it assumes the first separator in `s + sep` is the one after `s`. The form that only asks `s` and `c` to lack the separator is false for a separator whose prefix equals its suffix, as `RoundTripNeedsFirstSeparator` shows. `ChatRoundTripUnbordered` gives the unconditional form for separators without such a prefix.
- JoinRoundTrip: it assumes the first join postfix in the text is the one after the name, for the same reason as the post round trip.
- LeaveRoundTrip: it assumes the first leave postfix in the text is the one after the name, for the same reason as the post round trip.
