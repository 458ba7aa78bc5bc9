# Chat-ID allowlist and GPIO pin policy, in Dafny

This project models two small security gates of an ESP32 agent firmware and
proves what they promise.

- **The Telegram chat-ID allowlist** (`main/telegram_chat_ids.c`,
  `main/telegram_chat_ids.h`). It parses a comma-separated list of signed
  64-bit chat IDs into a fixed array of `TELEGRAM_MAX_ALLOWED_CHAT_IDS` = 4
  slots, answers membership, and routes outgoing messages. Parsing is
  fail-closed. One bad entry rejects the whole list, and so do more distinct
  IDs than the capacity or no ID at all. Repeated IDs are collapsed in
  first-seen order.
- **The GPIO pin policy and tools** (`main/tools_gpio.c`). A pin list such as
  `" 1, two, 3 , , 44"` is read by a lenient strtol-based scanner. When the
  list is non-empty, it alone decides which pins the write, read and read-all
  tools may touch. Without a list, the inclusive range
  `[GPIO_MIN_PIN, GPIO_MAX_PIN]` decides. The tools validate their JSON
  arguments, the delay tool caps waits at 60000 ms, and read-all fills a
  bounded reply buffer.

Files:

- `wrappers.dfy`: `Option`.
- `ctext.dfy` (module `CText`): shared models of C text handling.
  - `isspace` in the "C" locale.
  - Cursor skips over character classes, and `Span`, the copy of a range of
    characters.
  - base-10 `strtol`/`strtoll` as the function `Strtol`, and printf `%d` as
    `IntToDecimal`.
  - Proof that `Strtol` reads back what `%d` prints.
- `chat_ids.dfy` (module `ChatIds`): the allowlist.
  - A reference description of parsing: fields, trimmed tokens, and the
    distinct IDs (`Dedup`).
  - The imperative parse loop over an `array<int>`, proved against that
    description.
  - `Contains` and `ResolveTarget`.
- `gpio_policy.dfy` (module `GpioPolicy`):
  - the scanner (`ValuesFrom`, `ListValues`) and `gpio_pin_in_allowlist`
    proved against it;
  - the allow policy;
  - the pins read-all reports;
  - the source's `(int)` cast, examined under Findings.
- `gpio_tools.dfy` (module `GpioTools`): the write, read, delay and read-all
  handlers.
  - The read-all handler writes into an `array<char>` through an `snprintf`
    model.

Chat IDs and pins are unbounded integers. The int64/int32 ranges the source
relies on are explicit predicates (`InInt64`, `InInt32`). C strings are the
characters before their NUL.

## Model

| member | source | states |
|---|---|---|
| ChatIds.TokenAcceptance | main/telegram_chat_ids.c:8-29 | A token with no leading white space is accepted exactly when it is non-empty, shorter than the 32-byte buffer, wholly an optionally signed base-10 integer, within int64_t and not 0; the ID is then that integer. |
| ChatIds.TokenRoundTrip | main/telegram_chat_ids.c:8-29 | Every nonzero int64_t, printed with `%d`, is accepted back as itself. |
| ChatIds.FieldsJoin | main/telegram_chat_ids.c:55-59 | Splitting on commas loses nothing: the fields joined with ',' give the input back, and no field holds a comma. |
| ChatIds.FieldsOfJoin | main/telegram_chat_ids.c:55-59 | Splitting a comma-joined list of comma-free parts gives exactly the parts back. |
| ChatIds.TrimAt | main/telegram_chat_ids.c:51-63 | Where the leading-space cursor and the trailing-space cursor stop delimit the trimmed field. |
| ChatIds.ParseIdsMeaning | main/telegram_chat_ids.c:31-97 | Parsing a list succeeds exactly when no non-empty token is invalid and the number of distinct IDs is between 1 and the capacity; the result is the distinct IDs in first-seen order. |
| ChatIds.ParseIdsSuccess | main/telegram_chat_ids.c:65-95 | On success: 1 to max_ids IDs, no repeats, none 0, all within int64_t. |
| ChatIds.ParseIdsFirstSeen | main/telegram_chat_ids.c:70-82 | On success the result holds exactly the IDs written, each once, ordered by first occurrence. |
| ChatIds.ParseIdsFailClosed | main/telegram_chat_ids.c:65-68 | One non-empty token that is not a valid ID rejects the whole list. |
| ChatIds.ParseIdsNoTruncation | main/telegram_chat_ids.c:77-80 | More distinct IDs than the capacity reject the list; it is never truncated. |
| ChatIds.ParseIdsRejectsEmpty | main/telegram_chat_ids.c:91-93 | A list whose tokens are all empty (such as "" or "  ,  ") is rejected. |
| ChatIds.ParseIdsRoundTrip | main/telegram_chat_ids.c:31-97 | Printing nonzero int64_t IDs as a comma-separated list, with any white-space padding per entry, parses back to their distinct values in first-seen order, and fails exactly when those exceed the capacity. |
| ChatIds.DedupOrder | main/telegram_chat_ids.c:70-82 | The kept IDs are ordered by their first occurrence in the input. |
| ChatIds.DedupPrefix | main/telegram_chat_ids.c:70-82 | Later input never removes or reorders IDs already kept. |
| ChatIds.AbsorbDedup | main/telegram_chat_ids.c:45-89 | The token-by-token loop agrees with the reference description (distinct values, all tokens valid, capacity). |
| ChatIds.SingleId | test/host/test_telegram_chat_ids.c:17-26 | A list of one numeral, for any nonzero int64_t, parses to exactly that ID. |
| ChatIds.SpacedListWithRepeat | test/host/test_telegram_chat_ids.c:28-39 | " a, b ,a " parses to [a, b] for any two distinct IDs: padding is trimmed and the repeat collapsed. |
| ChatIds.RejectsEmptyList | test/host/test_telegram_chat_ids.c:46 | "" is rejected. |
| ChatIds.RejectsNonNumericList | test/host/test_telegram_chat_ids.c:47 | "abc" is rejected. |
| ChatIds.RejectsZeroList | test/host/test_telegram_chat_ids.c:48 | "0" is rejected (0 is reserved). |
| ChatIds.RejectsFiveIdsAtCapacity | test/host/test_telegram_chat_ids.c:49 | "1,2,3,4,5" with capacity 4 is rejected. |
| ChatIds.ScanField | main/telegram_chat_ids.c:51-63 | The three cursor loops stop where the skip-space, run-to-comma and back-over-space definitions say. |
| ChatIds.RoundToken | main/telegram_chat_ids.c:51-63 | Those cursors end the field at its comma (or the end), and the token they delimit is the trimmed field. |
| ChatIds.StoreToken | main/telegram_chat_ids.c:65-82 | Converting one non-empty token, scanning the stored IDs for a duplicate and storing a new ID when there is room: succeeds exactly when the reference step does, leaves the stored prefix equal to its result and touches no slot outside the new one. |
| ChatIds.ParseField | main/telegram_chat_ids.c:45-89 | One round of the parse loop consumes one field and keeps the stored IDs in step with the reference over the remaining fields. |
| ChatIds.ParseList | main/telegram_chat_ids.c:45-89 | The parse loop succeeds exactly when the reference accepts every field, with out_ids[0..count) equal to its result; slots at or beyond max_ids are untouched. |
| ChatIds.Parse | main/telegram_chat_ids.c:31-97 | NULL input, NULL array or zero capacity fail at once without touching *out_count; otherwise success iff the list parses, out_ids[0..*out_count) is the parsed list, and *out_count is 0 on failure. |
| ChatIds.Contains | main/telegram_chat_ids.c:99-111 | True exactly when ids is present, count > 0, chat_id != 0 and chat_id is among ids[0..count). |
| ChatIds.ResolveTarget | main/telegram_chat_ids.c:113-127 | No request gives the primary chat; an allowed request is kept; any other request gives the drop value 0, never the primary chat. |
| CText.StrtolIntToDecimal | main/telegram_chat_ids.c:21-27 | strtol reads back exactly what `%d` printed, ending after its last digit. |
| CText.StrtolStop | main/tools_gpio.c:37 | strtol stops at a character that is not white space, a sign or a digit; nothing after it changes the conversion. |
| GpioPolicy.ScanStep | main/tools_gpio.c:30-43 | One round of the scanner: skip space, tab and comma; at the end stop; otherwise strtol converts a value (cursor moves to its end) or the entry is skipped up to the next comma. |
| GpioPolicy.PinInAllowlist | main/tools_gpio.c:17-52 | The result is true exactly when pin is among the values the scanner reads from csv; an empty csv allows nothing. |
| GpioPolicy.PinIsAllowed | main/tools_gpio.c:54-60 | A non-empty list decides alone; an empty list means the inclusive range. |
| GpioPolicy.ListOverridesRange | main/tools_gpio.c:248-254 | With a list, a listed pin is allowed wherever it lies and an unlisted pin is denied even inside the range. |
| GpioPolicy.RangeIsInclusive | test/host/test_tools_gpio_policy.c:57-64 | Without a list, exactly the pins from min to max, both ends included, are allowed. |
| GpioPolicy.ListValuesComma | main/tools_gpio.c:26-49 | The values of x "," y are those of x followed by those of y. |
| GpioPolicy.ListValuesRoundTrip | main/tools_gpio.c:26-49 | A comma-separated list of `%d` numerals reads back as exactly those values, in order, repeats kept. |
| GpioPolicy.ListedPinsAllowed | test/host/test_tools_gpio_policy.c:66-76 | With a list of numerals the allowed pins are exactly the listed ones, whatever the range. |
| GpioPolicy.SpacedListWithWord | test/host/test_tools_gpio_policy.c:78-87 | " a, w, b , , c" reads as [a, b, c] for any numbers and any word strtol cannot convert. |
| GpioPolicy.SpacedListPolicy | test/host/test_tools_gpio_policy.c:78-87 | With that list, exactly a, b and c are allowed, whatever the range. |
| GpioPolicy.ReportedIffPermitted | main/tools_gpio.c:167-209 | Under the exact comparison PinInAllowlist models (see Findings for the cast as written), read_all reports an int pin exactly when the write and read tools may touch it. |
| GpioPolicy.CastAdmitsUnlistedPin | main/tools_gpio.c:45 | As written, a list entry outside the int range admits the pin its truncated value names, though the list does not name it and read_all does not report it. |
| GpioPolicy.AsWrittenAgreesInRange | main/tools_gpio.c:45 | When every value in the list fits an int, the cast comparison and the exact one agree. |
| GpioTools.WriteHandler | main/tools_gpio.c:84-116 | Succeeds exactly when pin and state are present and the pin is allowed; then resets the pin, sets it as output and drives it high iff state != 0, replying "Pin p → HIGH/LOW"; otherwise no driver call and the source's error text. |
| GpioTools.ReadHandler | main/tools_gpio.c:118-144 | Succeeds exactly when pin is present and allowed; then resets the pin, sets it as input and reports its level; otherwise no driver call and the source's error text. |
| GpioTools.DenialMessage | main/tools_gpio.c:101-107 | A refusal names the pin when a list is configured and quotes the range otherwise, and reads as an error. |
| GpioTools.SuccessIsNotError | main/tools_gpio.c:114 | A success reply never starts with "Error: ". |
| GpioTools.DelayHandler | main/tools_gpio.c:219-245 | Requests a wait of exactly ms milliseconds when 0 < ms <= 60000 and no wait otherwise, with the source's reply for each case. |
| GpioTools.AppendReadState | main/tools_gpio.c:62-82 | Appends "<pin>=HIGH/LOW" (after ", " unless first) exactly when it fits with its NUL in the remaining bytes; on failure the cursor does not move; earlier bytes are untouched. |
| GpioTools.Snprintf | main/tools_gpio.c:159 | snprintf with "%s" writes what fits of the text and a NUL, returns the full length, and leaves the bytes before the cursor alone. |
| GpioTools.AppendListStates | main/tools_gpio.c:167-199 | The list loop probes, in order, every scanned value that fits an int, and appends its entry; when it completes the buffer holds them all; otherwise they do not fit, and it has probed exactly the pins up to and including the first whose entry overflowed. |
| GpioTools.AppendRangeStates | main/tools_gpio.c:200-209 | The range loop probes min..max ascending and appends each entry; when it completes the buffer holds them all; otherwise they do not fit, and it has probed exactly the pins up to and including the first whose entry overflowed. |
| GpioTools.ReadAllHandler | main/tools_gpio.c:146-217 | The reply is "GPIO states: " and one entry per reported pin when it fits, the overflow error when it does not, the no-pins error when no pin is reported, and failure for a missing or zero-size buffer. No pin is probed when the buffer cannot hold the prefix; all reported pins are probed when their entries fit; otherwise exactly those up to and including the first whose entry overflowed, so a failed read_all has touched those pins. |
| GpioTools.FirstOverflowUnique | main/tools_gpio.c:193-208 | Only one prefix of the reported pins is the first to overflow, so the pins a failed read_all probed are determined. |
| GpioTools.StatesTextGrows | main/tools_gpio.c:193-208 | The entries of a prefix of the pins never take more room than those of all of them, so an early overflow means the whole reply cannot fit. |

## Left out

- The GPIO driver (`gpio_reset_pin`, `gpio_set_direction`, `gpio_set_level`, `gpio_get_level`) is not called. The write and read handlers return the calls they would make, and a pin's input level is a function parameter.
- cJSON is left out. A JSON field arrives as `Option<int>` holding `valueint`, or `None` when it is missing or not a number.
- `vTaskDelay` and `ESP_LOGI` are left out. The delay handler's `waited` is the requested wait in milliseconds. `pdMS_TO_TICKS`'s rounding down to whole ticks is not modelled, so a short request may block for less (even 0 ticks) than the "Waited <ms> ms" reply says.
- `GPIO_ALLOWED_PINS_CSV`, `GPIO_MIN_PIN` and `GPIO_MAX_PIN` come from `config.h`, which is not part of this model. They are parameters here, as in the test hook `tools_gpio_test_pin_is_allowed`. A NULL csv in that hook is treated like "", as the source treats it.
- GpioTools.WriteHandler, GpioTools.ReadHandler, GpioTools.DelayHandler: return their whole reply text. `snprintf` truncation into a short result buffer is modelled only for read_all.
- CText.Strtol: gives the exact value of the digits. The C library's clamping to LONG_MIN/LONG_MAX and its `errno` are not modelled as such. Callers test the range they need: `InInt64` stands for strtoll's overflow report, and `InInt32` for read_all's explicit range check.
- GpioPolicy.PinInAllowlist: compares the exact value, so it models the corrected behaviour. The source's `(int)value` cast is modelled separately in `AsWrittenInAllowlist` (see Findings).
- Locales other than "C" are left out. `isspace` is the "C" locale's six characters.
- ChatIds.ScanField, ChatIds.StoreToken, ChatIds.ParseField: are helper methods that split the single C loop body of `telegram_chat_ids_parse` into its three cursor loops, its store step and one round. The C code has them inline.
- ChatIds.Parse: a NULL `out_count` is not modelled separately. It is the same early failure as a NULL array, and there is no count to leave alone.
- The chat-ID array's contents are `int` rather than a 64-bit type. Every stored value is proved to lie within int64_t.

## Findings

| source | as written | input that shows it | evidently intended | confidence | as-written member | corrected member |
|---|---|---|---|---|---|---|
| main/tools_gpio.c:45 | `gpio_pin_in_allowlist` compares `(int)value == pin`. With a 64-bit `long` (the host test build), an entry outside the int range is cut to its low 32 bits. | csv "4294967297", pin 1: the cast gives 1, so pin 1 is allowed, yet the list names no pin 1. read_all skips the entry (main/tools_gpio.c:188-191) and does not report pin 1. | Compare the exact value, or skip out-of-range values as read_all does, so that the allow check and read_all agree. | not executed; applies where `long` is wider than `int` | GpioPolicy.CastAdmitsUnlistedPin | GpioPolicy.PinInAllowlist |
