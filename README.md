# Portfolio widgets: particle field and chat bot

This project is a Dafny model of the logic in two React components of a
portfolio site:

- **`Particles`** (`src/components/Particles.jsx`) draws drifting circles on a
  canvas. The model covers two parts of it:
  - the colour decoder `hexToRgb`, which turns a hex colour into a red, green
    and blue triple;
  - the bookkeeping of the live circle list `circles.current`. `initCanvas`
    refills the list. `drawCircle` appends to it. Each `animate` frame
    recycles every circle that has left the canvas.
- **`ChatBot`** (`src/components/ChatBot.jsx`) is a small assistant. The model
  covers three parts of it:
  - the keyword table and the first-match lookup `getPortfolioResponse`;
  - the message list and input field;
  - the send handler `handleSendMessage`, whose reply is delivered later.

Files:

- `js_string.dfy` (module `JsString`) covers the JavaScript string built-ins
  the components use. These are `trim`, with ECMAScript's white-space set,
  ASCII `toLowerCase`, and `includes`.
- `hex_color.dfy` (module `HexColor`) is `hexToRgb`. `String.replace` removes
  only the first `#`. `parseInt(_, 16)` is modelled in full:
  - it skips leading white space;
  - it takes one sign and an optional `0x`;
  - it reads the longest run of hex digits;
  - it is NaN when that run is empty.
  
  ECMAScript ToInt32 then feeds `>>` and `& 255`. `RgbToHex` is the encoder
  the decoder inverts.
- `particles.dfy` (module `Particles`) holds the class `ParticleField`. It
  has the list, the canvas size and the two presence flags: canvas element
  and 2D context. Its methods are proved against `Sweep`, a function that
  states what one `forEach` pass does to the list. The frame is specified
  over these parameters:
  - the floating-point motion of one circle is the parameter `move`;
  - the random circles that `circleParams` creates are the parameter
    `spawn`.
- `chat_bot.dfy` (module `ChatBot`) has these parts:
  - the thirteen-row table, kept verbatim and in order;
  - the lookup, written over any table and then specialised;
  - the class `ChatWidget`, whose send returns the pending reply;
  - a separate `DeliverReply` step, which stands for the 500 ms timer
    firing.
  
  The widget takes its reply function as a constructor argument.
  `PortfolioChat` builds it with `GetPortfolioResponse`, as the component
  does. This keeps the message-list proofs independent of the reply texts.

Behaviour of the code that the model keeps as written:

- **The `forEach`/`splice` skip.** When a circle is recycled, its successor
  slides into the index the pass has just left. That successor is then
  neither moved nor tested in the frame (`SweepSkipsSuccessor`).
- **The out-of-bounds test.** The test (`Particles.jsx:223-227`) looks at
  `x` and `y` alone, although the edge distances that drive the fade
  (`Particles.jsx:193-198`) add `translateX` and `translateY`.
- **Without a 2D context.** `drawCircle` pushes nothing, so `initCanvas`
  leaves the list empty and recycling only shrinks it. The circle count
  stays at `quantity` only when a context exists (`SweepKeepsLength`,
  `SteadyCount`).
- **The delayed reply.** It sets the list to the snapshot taken at send
  time plus the reply. It does not append to the current list. A second
  question sent within the delay overwrites the first reply. Both
  questions stay in the list, but only the second reply does
  (`OverlappingSends`).
- **The keyword "hi".** It is tried second and occurs inside many words
  ("this", "which"). It therefore answers many questions that mention a
  later keyword (`WhichProjectsGetsHi`).
- **The `default` row.** The table also has a `default` row, so a message
  containing the word "default" gets the default reply through the loop.
  That is the same reply the fallback returns.

## Model

| member | source | states |
|---|---|---|
| JsString.TrimIsEmptyIff | src/components/ChatBot.jsx:23 | `trim` yields the empty string exactly when every character is ECMAScript white space |
| JsString.IncludesLowered | src/components/ChatBot.jsx:31 | if `t` occurs in `s`, lower-case `t` occurs in lower-case `s` at the same place |
| JsString.MissingCharNotIncluded | src/components/ChatBot.jsx:57 | `includes` is false when the text lacks one of the keyword's characters |
| HexColor.StripHash | src/components/Particles.jsx:7 | without a '#' the colour is unchanged; otherwise exactly one character is removed |
| HexColor.StripHashAt | src/components/Particles.jsx:7 | the removed '#' is the first one, and the text before and after it is kept in order |
| HexColor.Doubled | src/components/Particles.jsx:9-14 | the expanded string is twice as long, and character `i` appears at positions `2i` and `2i+1` |
| HexColor.HexPrefix | src/components/Particles.jsx:16 | `parseInt` reads the longest prefix of hex digits: a prefix, all digits, followed by a non-digit or the end |
| HexColor.ToInt32 | src/components/Particles.jsx:17-19 | the shift operand is a signed 32-bit value congruent to the parsed integer modulo 2^32, and NaN becomes 0 |
| HexColor.LowByte | src/components/Particles.jsx:17-19 | `& 255` always gives a value in 0..255 |
| HexColor.Channels | src/components/Particles.jsx:17-20 | three entries, each in 0..255, for any parsed number, NaN included |
| HexColor.HexToRgb | src/components/Particles.jsx:6-21 | for every input string the result has exactly three entries, each in 0..255 |
| HexColor.ChannelsOfNumber | src/components/Particles.jsx:16-20 | NaN decodes to black; otherwise the channels are bytes 2, 1 and 0 of the parsed integer, whatever its size or sign |
| HexColor.ParseHexDigits | src/components/Particles.jsx:16 | a non-empty run of hex digits parses to its base-16 value |
| HexColor.DecodeDigits | src/components/Particles.jsx:7-16 | hex digits that are not three long, with or without '#', are parsed whole |
| HexColor.ShorthandIsDoubled | src/components/Particles.jsx:7-14 | "#abc" decodes exactly as "#aabbcc", for any three characters |
| HexColor.ShorthandChannels | src/components/Particles.jsx:9-19 | for three hex digits each channel is 17 times its digit's value |
| HexColor.SixDigitChannels | src/components/Particles.jsx:16-19 | for six hex digits, red, green and blue are the values of digit pairs 1-2, 3-4 and 5-6, with or without the '#' |
| HexColor.RgbToHex | src/components/Particles.jsx:6-21 | the encoder the decoder inverts: '#' followed by six hex digits |
| HexColor.RoundTrip | src/components/Particles.jsx:6-21 | decoding the encoding of any r, g, b in 0..255 gives [r, g, b] |
| HexColor.RoundTripDigits | src/components/Particles.jsx:6-21 | decoding six digits and re-encoding gives the same digits in lower case |
| HexColor.DefaultColourIsWhite | src/components/Particles.jsx:30 | the default colour "#ffffff" decodes to [255, 255, 255] |
| HexColor.UnreadableIsBlack | src/components/Particles.jsx:16-20 | an empty colour, or one whose first character cannot start a number, is NaN and decodes to [0, 0, 0] |
| HexColor.DecodeIgnoresCase | src/components/Particles.jsx:16 | lower-casing any colour string never changes what it decodes to, so "#FFF" and "#fff" agree |
| HexColor.ParseIntHexLower | src/components/Particles.jsx:16 | `parseInt(_, 16)` gives the same number for a string and its lower-cased form |
| Particles.LoopCount | src/components/Particles.jsx:96 | the `for` loop runs `quantity` times, or not at all when `quantity` is not positive |
| Particles.Spawned | src/components/Particles.jsx:95-99 | the first `n` fresh circles, in creation order |
| Particles.RemoveAt | src/components/Particles.jsx:230 | `splice(i, 1)` shortens the list by one, keeps the elements before `i` and shifts the later ones down by one |
| Particles.SweepKeepsLength | src/components/Particles.jsx:223-234 | with a drawing context a frame never changes the number of circles |
| Particles.SweepWithoutContextShrinks | src/components/Particles.jsx:156-167 | without a context a frame can only shrink the list |
| Particles.SweepKeepsPrefix | src/components/Particles.jsx:191-235 | the pass from index `i` on never changes the entries before `i` |
| Particles.SweepSkipsSuccessor | src/components/Particles.jsx:229-233 | after a circle at `i` is recycled, index `i` ends the frame holding its old successor, neither moved nor tested |
| Particles.SweepMovesVisited | src/components/Particles.jsx:211-220 | a visited circle that stays on the canvas ends the frame at its index, moved |
| Particles.ParticleField.constructor | src/components/Particles.jsx:43-44 | a mounted field starts with no circles and a 0-by-0 size |
| Particles.ParticleField.DrawCircle | src/components/Particles.jsx:155-169 | appends the circle only when a context exists and this is not an update; `drawCircle(c, true)` never changes the list |
| Particles.ParticleField.InitCanvas | src/components/Particles.jsx:81-100 | without a canvas nothing changes; otherwise the size is recorded and the list becomes the first `quantity` fresh circles, or stays empty without a context |
| Particles.ParticleField.Animate | src/components/Particles.jsx:189-237 | the list after a frame is the `Sweep` of the old list, so its length is kept with a context and never grows without one |
| Particles.SteadyCount | src/components/Particles.jsx:189-237 | with a canvas and a context, after `initCanvas` and any number of frames, each with its own motion (the pointer may move between frames) and its own fresh circles, exactly `quantity` circles are live |
| ChatBot.LookupFrom | src/components/ChatBot.jsx:56-61 | from row `i` on, the answer is the reply of the first row whose key occurs in the message, or the fallback when none does |
| ChatBot.Lookup | src/components/ChatBot.jsx:56-61 | the answer is the first matching row's reply, or the fallback when no key occurs |
| ChatBot.FirstMatchUnique | src/components/ChatBot.jsx:56-60 | the first matching row is unique, so the answer is determined by the message |
| ChatBot.LookupFirstMatch | src/components/ChatBot.jsx:56-60 | a message is answered by the reply of its first matching row, whatever later rows match |
| ChatBot.LookupIdentifiesRow | src/components/ChatBot.jsx:40-61 | with distinct replies and the fallback last, a row's reply comes back exactly when that row is the first match |
| ChatBot.LookupFallbackIff | src/components/ChatBot.jsx:53-61 | in such a table the fallback comes back exactly when no key but the last row's occurs |
| ChatBot.LookupInTable | src/components/ChatBot.jsx:40-61 | in such a table every answer is one of the table's replies |
| ChatBot.ResponsesShape | src/components/ChatBot.jsx:40-54 | the table has thirteen rows with distinct replies, "hello" and "hi" first and "default" last with the default reply |
| ChatBot.ReplyIsFromTable | src/components/ChatBot.jsx:40-61 | every answer is one of the thirteen table replies |
| ChatBot.ReplyIdentifiesKeyword | src/components/ChatBot.jsx:39-62 | for each of the twelve real keywords, its reply comes back exactly when it is the first keyword in table order that occurs |
| ChatBot.DefaultReplyIff | src/components/ChatBot.jsx:53-61 | the default reply comes back exactly when none of the twelve real keywords occurs |
| ChatBot.HelloComesFirst | src/components/ChatBot.jsx:41-58 | any message containing "hello" gets the hello reply |
| ChatBot.HiShadowsLaterKeywords | src/components/ChatBot.jsx:42-58 | a message containing "hi" but not "hello" gets the hi reply, whatever later keywords it holds |
| ChatBot.WhichProjectsGetsHi | src/components/ChatBot.jsx:42-58 | "which projects" gets the hi reply, not the projects reply |
| ChatBot.UnrelatedGetsDefault | src/components/ChatBot.jsx:53-61 | "xyz-unrelated" gets the default reply |
| ChatBot.KeywordInAnyCase | src/components/ChatBot.jsx:31 | a keyword typed in any case selects its row, because the input is lower-cased before the lookup |
| ChatBot.ShoutedHello | src/components/ChatBot.jsx:31 | a message containing "HELLO" gets the hello reply |
| ChatBot.ChatWidget.constructor | src/components/ChatBot.jsx:7-10 | the list starts as the single welcome message and the input as "" |
| ChatBot.ChatWidget.TypeInput | src/components/ChatBot.jsx:127 | typing replaces the input and leaves the list alone |
| ChatBot.ChatWidget.HandleSendMessage | src/components/ChatBot.jsx:21-31 | blank input changes nothing and schedules nothing; otherwise exactly one user message with the untrimmed input is appended, the input is cleared, and the reply to the lower-cased input is scheduled against that list |
| ChatBot.ChatWidget.DeliverReply | src/components/ChatBot.jsx:34-36 | the list becomes the send-time snapshot followed by the assistant reply |
| ChatBot.PortfolioChat | src/components/ChatBot.jsx:7-10 | the component's widget answers with `GetPortfolioResponse` and starts with the welcome message |
| ChatBot.SingleExchange | src/components/ChatBot.jsx:21-37 | one non-blank question gives the list [welcome, question, reply to the lower-cased question] |
| ChatBot.BlankInputIgnored | src/components/ChatBot.jsx:23 | a blank submission leaves the list and the input as they were |
| ChatBot.HelloExchange | src/components/ChatBot.jsx:21-41 | submitting "hello" ends with the user message "hello" followed by the hello reply |
| ChatBot.SendAndDeliver | src/components/ChatBot.jsx:21-37 | a send whose reply arrives before anything else keeps the earlier messages and appends exactly the question and its reply |
| ChatBot.OverlappingSends | src/components/ChatBot.jsx:26-35 | a second question sent before the first reply arrives makes the first reply vanish: the final list has both questions and only the second reply |

## Left out

- Canvas drawing is not modelled: `arc`, `fill`, `translate`, `setTransform`, `clearRect`, the canvas element's pixel size and style, and the device-pixel-ratio scaling. They are browser I/O. Only the presence of a canvas and of a 2D context is kept, as two flags.
- Scheduling is not modelled: `requestAnimationFrame`, `cancelAnimationFrame`, the resize listener with its 200 ms debounce, and the mouse-move listener. One frame is one `Animate` call. A resize re-runs `InitCanvas`.
- The floating-point simulation is abstracted into the parameter `move`: the alpha fade, `remapValue` with `toFixed(2)`, the drift by `dx + vx`, and the magnetism and `ease` smoothing towards the pointer. Each `Circle` carries its own `alpha`, `targetAlpha`, `dx`, `dy` and `magnetism`, so `move` can treat circles at the same position differently, and each frame of `SteadyCount` has its own `move`. All fields are integers in the model.
- `circleParams` and `Math.random` are not modelled. Fresh circles come from the parameter `spawn`, so the alpha and target-alpha ranges of new circles are not stated.
- Particles.LoopCount: a non-integer `quantity` is not modelled. The JavaScript loop would run `ceil(quantity)` times for such a value.
- The container measurement (`offsetWidth` or `innerWidth`) is not modelled. It reaches `InitCanvas` as the parameters `w` and `h`.
- HexColor.ParseIntHex: does not model the rounding of parsed values above 2^53, that is, more than thirteen significant hex digits. The model keeps the exact value, so the low bytes of such over-long colours may differ from the browser's.
- JsString.ToLowerCase: only ASCII letters are folded, and strings are sequences of characters rather than UTF-16 code units. Surrogate pairs and non-ASCII case mappings in colours or chat input are not modelled.
- React state handling, rendering, framer-motion, the open and dark-mode toggles, `scrollIntoView` and `preventDefault` are not modelled. Each setter is modelled as an immediate field update.
- The 500 ms reply timer is not modelled as a timer. `HandleSendMessage` returns the pending reply, and `DeliverReply` is the timer firing, at any later point.
