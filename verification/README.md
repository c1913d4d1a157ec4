# Open-AutoGLM-WebUI core in Dafny

A functional model of three parts of the Open-AutoGLM web UI, with proofs
of what each promises:

- **Response decoder** (`ModelClient._parse_response` and `MessageBuilder`,
  phone_agent/model/client.py). The decoder splits a model reply into a
  rationale ("thinking") and an instruction ("action") using a five-rung
  ladder: an `<answer>` tag, a `<think>…</think>` pair, the earliest action
  opener (`{action=`, `do(`, `finish(`), a leading `{`, and otherwise plain
  thinking. It also builds chat messages and strips screenshots out of old ones.
  Modules `ResponseDecoder` (decoder.dfy) and `Messages` (messages.dfy).
- **Device discovery** (`get_arp_ips` and `scan_network`,
  phone_agent/adb/scanner.py). Discovery tries the ARP candidates of the
  local subnet first. It sweeps `prefix.1` … `prefix.254` only when no ARP
  candidate answers, and it never probes an address twice. Module `Scanner`
  (scanner.dfy).
- **Task session** (`websocket_endpoint`, web_server.py). A connection reads
  task requests and applies `dict.get` defaults to the model and agent
  settings. For each request it streams `info`, then one `step` per agent
  step, then `finish` or `error`. Module `Session` (session.dfy).

Supporting modules:

- `Text` (text.dfy) models the Python string operations the code relies on:
  - `str.strip` with Python's whitespace set;
  - `find` and `in`;
  - `split(sep, 1)`;
  - the left-to-right `replace(p, "")`;
  - `split(".")` and `".".join`;
  - `str(n)`.
- `Seqs` (seqs.dfy) provides order-preserving filters, subsequences and
  duplicate-freedom.
- `Wrappers` (wrappers.dfy) provides `Option` and `Result`.

Modelling choices:

- **Inputs instead of I/O.** Each side effect becomes an input:
  - the address `get_local_ip` resolves;
  - the addresses the regular expression extracts from `arp -a`, or the
    failure of that command;
  - the port probe `check_port`, as a predicate;
  - the results or exceptions of the agent's `step` calls, one per call in
    call order;
  - the requests a client sends before it disconnects.
- **Exceptions.** Exceptions the code lets escape are `Result.Failure` values
  or the `Crashed` end of a connection.
- **The agent as outcomes.** `Session.Steps` consumes the agent's outcomes
  the way the handler's loop does. A task whose known outcomes end before a
  terminal one is still `Pending`.

## Model

| member | source | states |
|---|---|---|
| `ResponseDecoder.ParseResponse` | phone_agent/model/client.py:82-129 | for every reply, both returned parts are free of leading and trailing whitespace |
| `ResponseDecoder.ParseIgnoresSurroundingSpace` | phone_agent/model/client.py:92 | the reply is stripped before any rung looks at it, so decoding the stripped reply gives the same result |
| `ResponseDecoder.AnswerRung` | phone_agent/model/client.py:94-99 | with an `<answer>` tag the reply is split at its first occurrence; thinking is the text before it without `<think>`/`</think>`, action the text after it without `</answer>`, both stripped |
| `ResponseDecoder.ThinkRung` | phone_agent/model/client.py:101-106 | without `<answer>` but with both think tags, the reply is split at its first `</think>`; thinking loses its `<think>` tags, action is the stripped rest |
| `ResponseDecoder.EarliestMarker` | phone_agent/model/client.py:110-116 | the opener loop returns the earliest occurrence of any opener before the starting bound, or the bound when there is none |
| `ResponseDecoder.FirstMarkerPos` | phone_agent/model/client.py:108-118 | the split index is below the length exactly when some opener occurs; an opener starts there and none starts earlier |
| `ResponseDecoder.MarkerRung` | phone_agent/model/client.py:108-121 | without tags, the action starts with an opener, the thinking holds no opener, and the two are a prefix and a suffix of the reply separated only by whitespace |
| `ResponseDecoder.BraceRung` | phone_agent/model/client.py:123-126 | a tag-free, opener-free reply that starts with `{` is all action |
| `ResponseDecoder.CallOpenerTakenByMarkerRung` | phone_agent/model/client.py:125-126 | a tag-free reply starting with `do(` or `finish(` always has an opener, so rung 3 takes it and the result is empty thinking with the whole reply as action |
| `ResponseDecoder.PlainRung` | phone_agent/model/client.py:128-129 | a reply with no tag, no opener and no leading `{` is all thinking, with an empty action |
| `ResponseDecoder.UntaggedPartition` | phone_agent/model/client.py:108-129 | outside the tagged rungs no text is lost or reordered: thinking and action partition the stripped reply around whitespace |
| `ResponseDecoder.RemovalRejoinsCloseTag` | phone_agent/model/client.py:98 | one pass of removing `</answer>` from `</</answer>answer>` leaves `</answer>` |
| `ResponseDecoder.ActionMayKeepCloseTag` | phone_agent/model/client.py:94-99 | the reply `<answer></</answer>answer>` decodes to empty thinking and the action `</answer>`, so the action can still contain the closing tag |
| `Text.StripUnique` | phone_agent/model/client.py:92 | `strip` removes exactly the surrounding whitespace: whitespace around a stripped text strips back to that text |
| `Text.Find` | phone_agent/model/client.py:114 | `find` gives -1 exactly when the pattern is absent, and otherwise its first occurrence |
| `Text.RemoveAllAtFirst` | phone_agent/model/client.py:97-98 | `replace(p, "")` keeps the text before the first `p`, drops that `p`, and continues right after it; together with `Text.RemoveAllShrinks` this fixes the result completely |
| `Text.RemoveAllShrinks` | phone_agent/model/client.py:104 | `replace(p, "")` returns the text unchanged when `p` does not occur, and a strictly shorter text when it does |
| `Text.SplitOnce` | phone_agent/model/client.py:96 | `split(sep, 1)` gives the whole text when `sep` is absent; otherwise it gives the text before the first `sep` and the text after it, and these rejoin to the input |
| `Text.JoinSplit` | phone_agent/adb/scanner.py:35 | joining the pieces of `split(".")` with dots gives back the address |
| `Text.DecimalRoundTrip` | phone_agent/adb/scanner.py:100 | reading back the decimal digits of `f"{i}"` gives `i` |
| `Messages.UserMessage` | phone_agent/model/client.py:140-166 | a user message has an image part first exactly when the image is non-empty, always ends with one text part, and holds exactly one text part |
| `Messages.RemoveImages` | phone_agent/model/client.py:173-188 | list content keeps exactly its text items, each as often as it occurred and in order, and every other key is unchanged; other content is untouched; a non-object item raises AttributeError |
| `Messages.RemoveImagesIdempotent` | phone_agent/model/client.py:184-188 | removing images twice gives the same message as removing them once |
| `Messages.RemoveImagesFromUserMessage` | phone_agent/model/client.py:154-188 | removing images from a user message gives the message built without an image |
| `Messages.RemoveImagesKeepsStringContent` | phone_agent/model/client.py:136-171 | system and assistant messages, whose content is a string, pass through unchanged |
| `Scanner.SubnetPrefix` | phone_agent/adb/scanner.py:35 | the prefix is the address before its last dot, or empty when there is no dot |
| `Scanner.SubnetPrefixOf` | phone_agent/adb/scanner.py:99 | the prefix of `p.h`, where `h` has no dot, is `p` |
| `Scanner.ArpIps` | phone_agent/adb/scanner.py:24-45 | the candidates are exactly the listed addresses that start with the subnet prefix and differ from the local address, each once; a failed ARP command gives none |
| `Scanner.HostAddressInjective` | phone_agent/adb/scanner.py:100 | different host numbers give different addresses |
| `Scanner.SubnetHosts` | phone_agent/adb/scanner.py:100 | the sweep lists 254 addresses, `prefix.1` to `prefix.254` in order, without repetition |
| `Scanner.InSubnetHosts` | phone_agent/adb/scanner.py:100 | an address is in the sweep exactly when it is `prefix.i` for some 1 <= i <= 254 |
| `Scanner.SlowCandidates` | phone_agent/adb/scanner.py:103 | the slow list is exactly the sweep minus the ARP candidates and the local address, in sweep order, without repetition |
| `Scanner.ScanNetwork` | phone_agent/adb/scanner.py:76-112 | a loopback local address probes nothing and finds nothing; an address is found exactly when it was probed on either path and answered |
| `Scanner.FastPathPrecedence` | phone_agent/adb/scanner.py:82-95 | the fast path probes exactly the ARP candidates, and any answer there ends the scan without probing the sweep |
| `Scanner.SlowPathCoverage` | phone_agent/adb/scanner.py:97-110 | when no ARP candidate answers, the sweep probes every `prefix.i` that is not an ARP candidate or the local address, once each, in order |
| `Scanner.ScanResultShape` | phone_agent/adb/scanner.py:80-112 | the result lists found addresses in probe order, each once, and never the local address |
| `Scanner.FoundShareSubnetPrefix` | phone_agent/adb/scanner.py:37-103 | every found address starts with the local subnet prefix |
| `Scanner.SlowPathFindsSingleHost` | phone_agent/adb/scanner.py:97-112 | with no ARP candidates and one answering host `prefix.i`, the scan returns exactly that host |
| `Scanner.ArpAdmitsAnyContinuation` | phone_agent/adb/scanner.py:39 | any listed address that starts with the prefix string is a candidate, whatever follows the prefix |
| `Scanner.ArpFilterIsStringPrefix` | phone_agent/adb/scanner.py:35-39 | with local address 192.168.1.5, the address 192.168.10.7 from another network passes the ARP filter |
| `Session.ParseInt` | web_server.py:114 | `int()` accepts text exactly when, after stripping, it is an optional sign followed by ASCII digits and it contains no information separator (U+001C..U+001F), which `strip()` removes but `int()` does not skip |
| `Session.ParseIntRoundTrip` | web_server.py:114 | `int(str(n)) == n` for every integer, with or without whitespace that `int()` skips around it |
| `Session.ParseIntRejectsSeparatorPadding` | web_server.py:114 | a numeral preceded by an information separator strips to the numeral, yet `int()` rejects it |
| `Session.ParseIntPlusSign` | web_server.py:114 | `int("+" + str(n)) == n` |
| `Session.ParseIntNeedsDigit` | web_server.py:114 | text without a decimal digit is rejected |
| `Session.IntOf` | web_server.py:114 | an integer converts to itself, and null, lists and objects raise |
| `Session.Settings` | web_server.py:103-117 | each absent key takes its default and each present key is used as sent; verbose is on; the settings fail exactly when `max_steps` does not convert |
| `Session.DefaultSettings` | web_server.py:107-117 | a request naming only a task runs with the default endpoint, key, model and 100 steps |
| `Session.MaxStepsText` | web_server.py:114 | the text `" 7 "` as `max_steps` gives 7 steps |
| `Session.MaxStepsTextRejected` | web_server.py:114 | `max_steps` text without a digit makes the settings fail |
| `Session.FinishMessage` | web_server.py:140 | the finish message is the step's own message when that is non-empty, and `"Task completed"` when it is missing or empty |
| `Session.StepsMeaning` | web_server.py:132-143 | one `step` event per returned result in call order; the loop stops at the first finished result (then `finish`) or exception (then one `error` instead of a `step`), only there, and runs on otherwise |
| `Session.RunTask` | web_server.py:124-140 | a task sends one `info` event, first and only there; the first step call passes the task and later ones pass nothing; each call is answered by exactly one later event, plus a `finish` when the task finished; no more calls are made than there are outcomes |
| `Session.DriveTask` | web_server.py:122-143 | the handler's first call and `while not result.finished` loop produce exactly the run that `RunTask` describes |
| `Session.StepsStopAt` | web_server.py:136-140 | the loop consumes exactly the outcomes up to the first terminal one, and its end matches that outcome |
| `Session.ThreeStepsThenFinish` | web_server.py:132-140 | two unfinished results and a finished one give three `step` events and one `finish`, with later outcomes never asked for |
| `Session.RaiseOnSecondCall` | web_server.py:132-143 | an exception on the second call gives one `step` event and one `error` event, and no `finish` |
| `Session.StepsExtend` | web_server.py:132-140 | events already sent stay a prefix as more outcomes arrive, and a finished or failed loop takes no further step |
| `Session.RunExtends` | web_server.py:124-140 | run-level form: a task's events only grow, and an ended task is unaffected by later outcomes |
| `Session.OneTerminalEvent` | web_server.py:124-143 | only the last event of a task can be `finish` or `error`, and it is exactly when the task finished or failed |
| `Session.Handle` | web_server.py:97-147 | the handler builds at most one agent per request, from that request's settings, and reaches a disconnect only after building one for every request |
| `Session.ServeIntendedServesAll` | web_server.py:100-147 | with `traceback` importable, every request with valid settings and an ending task is served in order, and the connection ends only by disconnect |
| `Session.ServeMatchesIntendedWithoutErrors` | web_server.py:142-144 | as long as no task fails, the handler as written behaves exactly as intended |
| `Session.FailedTaskEndsConnection` | web_server.py:142-147 | as written, a task whose step raises sends `error` and then the handler dies of NameError before reading the next request; with the import, the next task runs |
| `Session.FailedTaskCrashesHandler` | web_server.py:122-147 | as written, when every earlier request finished and request k's task fails, the handler has built k + 1 agents, sent exactly the events of those k + 1 tasks, and ends with the NameError |
| `Session.BadMaxStepsEndsConnection` | web_server.py:113-117 | a `max_steps` that `int()` rejects ends the handler before any event for that request, because the conversion is outside the reporting `try` |

## Left out

- Network, subprocess and socket I/O are left out: `get_local_ip`, running `arp -a`, the regular expression `\b(?:\d{1,3}\.){3}\d{1,3}\b`, and `check_port` with its port and timeout. Their results are inputs; `scan_network`'s `port`, `timeout` and `max_workers` parameters therefore do not appear.
- Scanner.ScanNetwork: `check_port` creates its socket and sets the timeout before its `try` (phone_agent/adb/scanner.py:50-51). An `OSError` there, such as running out of file descriptors, would propagate through `future.result()` and out of `scan_network`. The model's probe is a total predicate, so the scan never fails.
- `get_local_ip` is called once in `scan_network` and again inside `get_arp_ips`. The model assumes both calls return the same address.
- The thread pools in `scan_network` and the executor thread in the handler are left out. They change only timing: results are collected in submission order, and steps within a connection are strictly sequential.
- Scanner.ArpIps: `list(set)` has an unspecified order. The model fixes one order (the last occurrence of each address), and every contract about it speaks only of membership and absence of duplicates.
- `ModelClient.__init__` and `ModelClient.request` are left out. They handle the OpenAI client, streaming and timing, so only `_parse_response` is modelled.
- `MessageBuilder.build_screen_info` is left out because it is a `json.dumps` call.
- Messages.RemoveImages: the source mutates its argument in place and returns it. The model returns the updated message, so aliasing is not modelled. JSON floats are left out of `Json`.
- `max_steps` given as a JSON float (`int(2.5) == 2`) is left out. So are digit strings with underscores or non-ASCII digits, which Python's `int()` also accepts, and the limit of 4300 digits that `int()` and `str()` enforce since Python 3.11: the model converts numerals of any length. Null values for the string settings are treated like absent keys.
- The agent (`PhoneAgent`, `AgentConfig`, `ModelConfig`) is left out: its step results are an input. `StepResult` keeps only `finished` and `message`; the other fields are carried by `asdict` unchanged and play no part in the protocol.
- Session.Handle: a disconnect raised while a task is running (inside `send_json`), invalid JSON, and a non-object request are left out. The model's client disconnects only while the handler waits in `receive_json` for the next request.
- The other FastAPI routes are left out: `/`, `/api/scan`, `/api/devices`, `/api/connect`, `/api/disconnect` and the `/stream` generator. So are `load_dotenv`, the templates directory, the unused `agent_lock`, and the `print` calls.

## Findings

| source | as written | input that shows it | evidently intended | confidence | as-written member | corrected member |
|---|---|---|---|---|---|---|
| web_server.py:142-144 | after sending the `error` event, the handler calls `traceback.print_exc()`, but `traceback` is never imported. The resulting NameError is not a `WebSocketDisconnect`, so it escapes the handler and the connection is dropped. | two requests on one connection, where the first task's first step raises | log the traceback and keep serving the connection, so the second task runs | not executed | `Session.FailedTaskEndsConnection` | `Session.ServeIntendedServesAll` |

One property that might be expected of rung 1 does not hold: "the action never contains `</answer>`". The removal is a single left-to-right pass, so `<answer></</answer>answer>` yields the action `</answer>`. `ResponseDecoder.ActionMayKeepCloseTag` proves this. It is recorded as behaviour, not as a defect, because nothing in the code claims otherwise.
