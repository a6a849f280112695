# A verified model of the Telegram chat bot's handlers

The bot relays each Telegram text message to a hosted completion service. It
chains the turns of one chat through the service's `previous_response_id`, and
it relays the reply texts of the response back to the chat. The logic it owns
sits in two handlers of `telegram_bot.py`:

- `start` resets the chat's stored response id and greets the user.
- `handle_message` does five things in order:
  - starts a typing indicator;
  - issues the request with the stored id;
  - stores the new response's id;
  - relays a one-off web-search notice, then every `output_text` part of every
    `message` item;
  - cancels the indicator.

  If anything raises, it sends a fixed apology instead and cancels the
  indicator when it exists.

The model has four modules:

- `Responses` (`responses.dfy`): the response objects the handler inspects, as
  datatypes. `Outcome` is `Success(id, output)` or `Failure`; output items are
  `WebSearchCall`, `Message(content)` or `OtherItem`; content parts are
  `OutputText(text)` or `OtherPart`. `responses.create` is represented only by
  the `Outcome` it produces.
- `Replies` (`replies.dfy`): the pure derivation of the messages meant for one
  response. `Planned(output)` is the notice (when some item is a search call)
  followed by the reply texts in item order, then part order.
- `TelegramBot` (`telegram_bot.dfy`): the chat and the handlers.
  - Everything observable a handler does is recorded, in order, as an
    `Action` in a trace:
    - resetting the stored id;
    - starting the typing task;
    - issuing a request;
    - storing an id;
    - a `reply_text` call that went through;
    - cancelling the typing task.
  - `StoredBy(trace)` is the value of `chat_data['last_response_id']` that a
    trace leaves behind.
  - `HandleSteps` is the specification of one `handle_message` call.
  - The class `Chat` holds the stored id and the trace. Its methods `Start` and
    `HandleMessage` follow the handlers statement by statement, loops included.
    Each is proved to append exactly what its specification says, and to keep
    the invariant `Valid()`: the stored id is the one the trace last wrote, and
    every request carried the id stored when it was issued.
- `Sequences` (`sequences.dfy`): generic facts about sequence concatenation
  used by the proofs.

The outside world is a set of parameters:

- `taskCreated`: whether `asyncio.create_task` succeeds.
- `outcome`: what `responses.create` does.
- `fails`: which `reply_text` calls of the handler raise, numbered from 0 in
  call order.

Each `reply_text` call goes through or raises according to `fails`. Reading
`update.message.text` is assumed to succeed; "## Left out" says what that
leaves out.

The comment at `telegram_bot.py:111` says the typing animation is cancelled
"in case of error". The code does not always do that:

- The except clause sends the apology with a `reply_text` call
  (`telegram_bot.py:108-110`), and the cancel comes after it
  (`telegram_bot.py:112-113`).
- If that call raises, the exception leaves the handler. No apology is
  delivered, and `typing_task.cancel()` is never reached.
- The model follows the code. `Escapes` names this case. `HandleCancel` proves
  that the typing task is left running exactly then. `HandleApology` proves
  that the apology is delivered exactly when the try block raised and this
  case did not happen.

## Model

| member | source | states |
|---|---|---|
| TelegramBot.Chat.constructor | telegram_bot.py:82 | A chat the bot has not seen: no stored id (`chat_data.get` yields None), nothing done, invariant holds |
| TelegramBot.Chat.ReplyText | telegram_bot.py:101 | One `reply_text` call: it raises exactly when its number is in `fails`; only a call that goes through appends its message |
| TelegramBot.Chat.Start | telegram_bot.py:29-35 | `/start` sets the stored id to None, records the reset, then greets, and the greeting is lost exactly when its call raises; the invariant is kept |
| TelegramBot.Chat.RelaySearchNotice | telegram_bot.py:89-93 | The loop with `break` sends the notice at most once, as call 0, exactly when some item is a search call |
| TelegramBot.Chat.RelayParts | telegram_bot.py:99-101 | One reply per `output_text` part in part order; calls are numbered from `from`; the first call that raises stops the loop; what went through is a prefix of the message's replies |
| TelegramBot.Chat.RelayTexts | telegram_bot.py:96-101 | The nested loops relay a prefix of the reply texts of all message items with content, each call in order, stopping at the first call that raises |
| TelegramBot.Chat.RelayOutput | telegram_bot.py:88-101 | Notice then texts, together a relay of `Planned(output)` from call 0: exactly the planned messages before the first failing call |
| TelegramBot.Chat.Apologize | telegram_bot.py:106-113 | The except clause: the apology, then a cancel only if the typing task exists and the apology went through; `escaped` exactly when the apology raised |
| TelegramBot.Chat.HandleMessage | telegram_bot.py:49-113 | The handler appends exactly `HandleSteps` for the id stored when it starts; the new stored id is the response's id if `create` returned and the old one otherwise; `escaped` iff `Escapes`; the invariant is kept |
| TelegramBot.RequestAfterReset | telegram_bot.py:32 | In a trace that keeps the protocol, every request after a reset, with no store in between, carries no previous response id |
| TelegramBot.HandleRequest | telegram_bot.py:82 | A request is issued exactly when the typing task started, as the second action and only there, with the user's text and the stored id |
| TelegramBot.HandleStoredId | telegram_bot.py:86 | After a call the stored id is the response's id when `create` returned, whatever the replies did, and is unchanged otherwise |
| TelegramBot.HandleContinues | telegram_bot.py:82 | A call keeps the continuation protocol: its request carries the id stored when the call starts |
| TelegramBot.StoreBeforeReplies | telegram_bot.py:86-101 | Every store comes before every sent message |
| TelegramBot.HandleSendsAt | telegram_bot.py:89-108 | Every message sent is the apology or the planned reply for its position, right after the store |
| TelegramBot.HandleNotice | telegram_bot.py:89-93 | The notice is sent at most once, before every reply text, and only when some item is a search call; if one is and its call goes through, it is the first message delivered |
| TelegramBot.NoticePosition | telegram_bot.py:89-93 | A sent notice sits right after the store, and only for an output holding a search call |
| TelegramBot.HandleDelivered | telegram_bot.py:88-110 | The messages delivered are the planned ones up to the first failing call, then the apology iff the try block raised and the apology went through |
| TelegramBot.HandleAllDelivered | telegram_bot.py:96-101 | With no failing reply call, the messages delivered are exactly `Planned(output)` and no exception leaves the handler |
| TelegramBot.HandleApology | telegram_bot.py:106-110 | The apology is delivered at most once, as the last message, iff the try block raised and the apology's own call went through |
| TelegramBot.HandleFailure | telegram_bot.py:106-110 | If `create_task` or `create` raises, the stored id is unchanged and the only message is the apology, unless the apology itself raises |
| TelegramBot.HandleCancel | telegram_bot.py:104-113 | The typing task is cancelled iff it was created and no exception leaves the handler; the cancel is the call's last action |
| TelegramBot.HandleEmptyOutput | telegram_bot.py:86-104 | A response whose output is None or empty sends nothing, but its id is stored and the typing task cancelled |
| TelegramBot.HelloTurn | telegram_bot.py:49-104 | First turn after `/start`: "Hello" goes out with no previous id, "Hi there!" is relayed and R1 is stored |
| TelegramBot.NewsTurn | telegram_bot.py:49-104 | Next turn: the request carries R1; the notice comes before the text, and R2 is stored |
| TelegramBot.TwoTurns | telegram_bot.py:29-104 | Across `/start` and both turns, the chat receives "Hi there!", the notice, then the text, and R2 ends up stored |
| TelegramBot.FailedTurn | telegram_bot.py:106-113 | A failed request: typing started, request issued with the stored id, one apology, one cancel, stored id kept |
| TelegramBot.OkPrefix | telegram_bot.py:101 | How many reply calls go through before the first that raises: none of those fail, and the next one does unless all went through |
| TelegramBot.SuccessLayout | telegram_bot.py:55-104 | A call whose request returned: start typing, request, store, the replies that went through, then the cancel or the except clause |
| TelegramBot.FailureLayout | telegram_bot.py:55-113 | A call whose `create_task` or `create` raised: at most the start and the request, then the except clause from call 0 |
| TelegramBot.Closing | telegram_bot.py:104-113 | The end of a call consists of apology sends and cancels only, and a cancel can only come last |
| TelegramBot.ClosingCancel | telegram_bot.py:104-113 | The end of a call holds a cancel iff the typing task exists and no exception leaves the handler |
| TelegramBot.ClosingDelivered | telegram_bot.py:104-110 | The end of a call delivers the apology iff the try block raised and the apology went through |
| TelegramBot.Opening | telegram_bot.py:55-86 | The try block before its first reply: sends nothing; when the typing task starts it issues the request second; a store can only come third |
| TelegramBot.RelayedOkPrefix | telegram_bot.py:88-101 | Any relay of a plan from call 0 delivers exactly the plan's prefix before the first failing call, and raised exactly when that prefix is short |
| TelegramBot.StoredByNoStore | telegram_bot.py:32 | Once the stored id is None it stays None until the next store |
| TelegramBot.StoredByPassive | telegram_bot.py:86 | Actions other than store and reset leave the stored id as it was |
| Replies.HasWebSearchAt | telegram_bot.py:90-91 | `HasWebSearch` holds iff some output item is a `web_search_call` |
| Replies.Planned | telegram_bot.py:89-101 | The planned replies: nothing for a missing or empty output; a notice only at the front, exactly when a search call exists; after it exactly the reply texts |
| Replies.TextReplies | telegram_bot.py:96-101 | The reply texts of an output are all texts (never the notice) |
| Replies.TextRepliesFrom | telegram_bot.py:96-101 | A text is among the reply texts iff it is the text of an `output_text` part of a `message` item |
| Replies.PartRepliesFrom | telegram_bot.py:99-101 | A text is among a message's replies iff one of its parts is an `output_text` part with that text |
| Replies.TextRepliesAppend | telegram_bot.py:97-101 | The replies of concatenated outputs are the concatenated replies, in order |
| Replies.TextRepliesSplit | telegram_bot.py:97-101 | Item `i`'s replies come after those of the items before it and before those after it |
| Replies.PartRepliesAppend | telegram_bot.py:99-101 | The replies of concatenated contents are the concatenated replies, in order |
| Replies.PartRepliesSplit | telegram_bot.py:99-101 | Part `j`'s reply comes after those of the parts before it and before those after it |

## Left out

- `help_command` (`telegram_bot.py:37-41`): a single fixed reply with no state.
  It is not modelled.
- `show_typing` and the `asyncio` scheduling (`telegram_bot.py:43-47`, `55`):
  the typing task is only its start and its cancel. Its timed loop, the 4.5
  second sleep and the chat actions it sends are not modelled. Neither is the
  interleaving of handlers.
- The OpenAI client and `responses.create` (`telegram_bot.py:20`, `61-83`): a
  foreign network call. It is represented by its `Outcome`. The model name,
  the system message, the tool list, `tool_choice` and `temperature=0.7` are
  not modelled; the request carries only the user's text and
  `previous_response_id`.
- `main`, the `Application` builder, handler registration and polling
  (`telegram_bot.py:115-126`), `load_dotenv`, environment variables and logging
  (`telegram_bot.py:9-17`, `107`): configuration and I/O. What the framework
  does with an exception that leaves a handler is not modelled. The model only
  reports that one did.
- The wording of the greeting, the notice and the apology: distinct opaque
  constants.
- Item and part types are read only as far as the handler tests them. Any item
  type other than `web_search_call` and `message` is `OtherItem`, and any part
  type other than `output_text` is `OtherPart`. A message whose `content` is
  None is the same as one with empty content, since both are falsy at line 98.
- Reading the message at `telegram_bot.py:58` (`update.message.text`) is not a
  failure point of the model. It raises only when `update.message` is None,
  which depends on the framework delivering an update that is not a plain
  `message` (an edited message, say). The model assumes that the handler
  always gets a message. So it cannot produce the trace of that case: typing
  started, no request, the apology's own `reply_text` raising on the same
  None, and the typing task never cancelled.
- Kinds of exception: every exception is one failure. The error text logged at
  line 107 is not modelled.
- The chat's store is the per-chat `chat_data` mapping, seen from one chat.
  Other keys and other chats are not modelled.
