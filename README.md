# Irrigation bot: a verified model

This project models a Raspberry Pi plant-watering controller in Dafny. The controller has two parts.

- **The stand-alone watering loop** (`water.py`). It reads a soil sensor every few seconds and keeps a count of consecutive dry readings. It runs the pump for one second on each of the first five dry readings in a row and gives up for good after ten. Each pump run stamps a "last watered" marker file.
- **The chat bot** (`bot.py`). It lets an operator water by hand, store and view a daily watering time (`HH:MM`), and receive a report of the last week's logged events.

Things the program does to the outside world are recorded in order, not performed:

- GPIO writes, sleeps and the marker-file write are `Command`s (`Trace`);
- chat messages, file saves and the report upload become the bot's `Effect`s.

Values that come from outside are parameters of the model:

- the sensor readings: a finite sequence for the loop, one `Level` per logged event;
- the wall clock: a `DateTime` in the bot; a function from tick number to an in-range `DateTime` (`Timestamps.Moment`) in the loop;
- the contents of the stored files. Each is an `Option`, with `None` when the file is absent.

Modules:

- `Wrappers`: `Option` and `Result`.
- `Trace`: pin levels (LOW runs the active-low pump relay, HIGH stops it), and the commands with their projections: the levels written to a pin, the last level written, the number of marker writes, and the marker file's content.
- `Water`: `init_output`, `pump_on` and `get_last_watered`, plus `auto_water` as a loop method.
  - The method is proved against a reference definition `Run`, which is built on the streak of trailing dry readings.
  - Lemmas give the two thresholds (five and ten) their meaning.
- `Digits`: zero-padded decimal fields and reading them back.
- `Commands`: the `HH:MM` validator (a regular expression in the source) and the `text.split('/setSchedule ')[1]` argument extraction.
- `Timestamps`: the `%Y-%m-%d %H:%M` format and its strict parse, Python's `str(datetime)`, and the proleptic Gregorian calendar.
  - The calendar turns a date and time into microseconds from a fixed origin, so that `now - timedelta(days=7)` and datetime comparison can be stated.
- `Events`: the event log entries and the weekly report filter, with the `ValueError` path for an unreadable timestamp.
- `Bot`: the class `Bot` with the schedule, the event log and the effect list as fields, and one method per handler.
  - Every method keeps the pump-off invariant `PumpOff`: the last level written to the pump pin is HIGH.
  - Every pump run re-establishes it.

## Model

| member | source | states |
|---|---|---|
| Water.ReadNewlines | water.py:10 | in text mode (universal newlines) no carriage return is read back, and a text without "\r" reads back unchanged |
| Water.ReadNewlinesTranslates | water.py:10 | for any text: the part before the first "\r" reads back unchanged, that "\r" together with a "\n" right after it becomes one "\n", a "\r" not followed by "\n" becomes "\n" too, and the rest is read the same way |
| Water.ReadNewlinesPrefix | water.py:10 | a prefix without carriage returns reads back unchanged whatever follows it |
| Water.FirstLine | water.py:11 | the first line is a prefix of the text, has no newline before its last character, and is either the whole text or ends in a newline |
| Water.GetLastWatered | water.py:8-13 | "NEVER!" when there is no file. Otherwise readline's result on the text as read in text mode: a prefix of it holding no carriage return and no newline before its last character, which is either all of it or ends in a newline |
| Water.ReadLineExamples | water.py:10-11 | a file "x\r\ny" or "x\ry" reads back as the line "x\n" |
| Water.NeverWateredWithoutMarker | water.py:8-13 | with no marker file and no marker write, get_last_watered returns "NEVER!" |
| Water.LastWateredAfterPump | water.py:43-44 | after pump_on, following any history and whatever the file held, get_last_watered returns exactly "Last watered " and the clock text, when that text has no newline or carriage return |
| Water.MarkerTextOneLine | water.py:44 | get_last_watered reads the marker text back whole when the clock text has no newline or carriage return |
| Trace.MarkerFile | water.py:43-44 | the marker file after a sequence of steps is unchanged when nothing writes it |
| Trace.MarkerFileLastWrite | water.py:43-44 | when a sequence of steps writes the marker, the file ends up holding the text of its last write: a write after which no other write follows |
| Trace.MarkerFileOverwritten | water.py:43 | once a step sequence writes the marker, the earlier content of the file has no influence (mode "w" truncates) |
| Water.InitOutput | water.py:19-22 | init_output writes LOW then HIGH to the pin and does not touch the marker |
| Water.PumpOn | water.py:41-47 | pump_on writes LOW, HIGH, LOW, HIGH to the pump pin, so the pump ends off. The marker is written exactly once: after init_output's pulse and before the LOW that runs the pump. The pump then runs for `delay` seconds before the final HIGH, and the file afterwards holds the marker text |
| Water.DryStreakMeaning | water.py:31-37 | the reference count is exactly the number of dry readings after the last wet one |
| Water.DryStreakAfterWet | water.py:35-37 | after a wet reading (or at the start), the count equals the length of the dry stretch that follows |
| Water.AutoWater | water.py:24-37 | the loop consumes exactly StopIndex readings. Its final counter equals the reference count of the consumed readings, is at most 10, and is 10 when the loop stopped before the input ran out. Its steps are exactly the reference behaviour Run |
| Water.AutoWaterStep | water.py:30-37 | one tick sleeps, then runs pump_on only when the reading is dry and the count before it is below 5. A dry reading raises the count by exactly one; a wet one resets it to 0 |
| Water.StopIndex | water.py:29 | the loop stops at the first point where the count reaches 10, or at the end of the input. Before that the count is below 10, so it stays within 0..10 throughout |
| Water.AtMostFiveInDryRun | water.py:33-37 | among consecutive dry readings at most five ticks run the pump |
| Water.FiveAfterWet | water.py:33-37 | after a wet reading (or at the start), of the next k dry readings exactly min(k, 5) run the pump |
| Water.StopsAfterTenDry | water.py:29 | ten dry readings in a row end the loop at the tenth of them or earlier |
| Water.TickActivates | water.py:32-35 | on a tick, pump_on runs (LOW, HIGH, one marker write, LOW, HIGH) if and only if the reading is dry and the count before the tick is below 5; otherwise the tick adds no pin write and no marker write |
| Water.MarkersCountActivations | water.py:33-34 | the number of marker writes in the loop's steps equals the number of ticks that ran the pump |
| Water.WateringEndsOff | water.py:47 | a tick that runs the pump leaves HIGH as the last level on the pump pin; a tick that does not writes no level |
| Water.LoopLastWatered | water.py:33-44 | after a loop tick that runs the pump, get_last_watered returns "Last watered " and str(datetime.now()) of that tick, whatever the file held before; no requires on the clock text, since str(datetime) is one line |
| Water.PumpLeftOff | water.py:24-37 | after any number of ticks, the last level written to the pump pin is HIGH: the loop never leaves the pump running |
| Commands.IsValidTimeFormat | bot.py:50-52 | the validator accepts a text if and only if it is a zero-padded time 00:00..23:59, alone or followed by one newline (Python's `$` matches before a final newline) |
| Commands.TimeFormatExamples | bot.py:51 | the pattern matches "08:30", "23:59" and "08:30\n"; it does not match "8:30", "24:00", "12:60", "08:30\n\n" or "08:30 " |
| Commands.FindFrom | bot.py:134 | the first occurrence of the separator at or after a position, or none at all |
| Commands.SecondField | bot.py:134 | `split(sep)[1]` is absent (IndexError) exactly when the separator never occurs. Otherwise it is the text that starts right after the first occurrence and ends at the next occurrence, or at the end of the text; it does not contain the separator |
| Commands.ArgumentOfCommand | bot.py:134 | "/setSchedule " followed by an argument that does not contain the separator yields exactly that argument |
| Commands.BareCommandHasNoArgument | bot.py:134 | "/setSchedule" without its trailing space takes the IndexError path |
| Timestamps.Format | bot.py:72 | `%Y-%m-%d %H:%M` renders a timestamp as 16 characters |
| Timestamps.Parse | bot.py:96 | strptime with `%Y-%m-%d %H:%M` yields only valid calendar timestamps (real month lengths, leap years, hour < 24, minute < 60) |
| Timestamps.ParseFormat | bot.py:96 | parsing a formatted timestamp gives the timestamp back |
| Timestamps.FormatParse | bot.py:96 | every accepted text is the format of the timestamp it parses to |
| Timestamps.IsoText | bot.py:90 | `str(datetime)` is 19 or 26 characters long, begins with the `%Y-%m-%d %H:%M` form and holds no newline or carriage return |
| Timestamps.MicrosOrder | bot.py:96 | the instant in microseconds orders datetimes exactly as Python compares them field by field, and two datetimes have the same instant exactly when they are equal |
| Events.NewEvent | bot.py:71-75 | a new entry's timestamp parses back to the minute of the time it was made, and its manual flag and moisture level are the arguments |
| Events.FirstUnreadable | bot.py:96 | the first entry whose timestamp strptime rejects: none exactly when every entry is readable |
| Events.Recent | bot.py:96 | the filter keeps only entries of the log that are readable and later than one week before now, and never more rows than the log has |
| Events.WeeklyReport | bot.py:96 | the report succeeds exactly when every timestamp is readable. Otherwise it fails at the first unreadable entry (the ValueError that aborts the comprehension). It never has more rows than the log |
| Events.ReportAfterAppend | bot.py:96 | logging one more readable entry adds it at the end of the report when it is later than a week ago, and leaves the report unchanged when it is not |
| Events.ReportPositions | bot.py:96 | the report is drawn from the log at strictly increasing positions, and a position is drawn exactly when its entry is later than one week before now |
| Events.ReportIsFilter | bot.py:96 | the report is an order-preserving subsequence of the log that keeps exactly the entries later than one week before now |
| Events.ReportCounts | bot.py:96 | each kept entry occurs in the report as often as in the log, and each other entry not at all |
| Events.LoggedEventReadable | bot.py:72 | entries made by log_watering_event keep the whole log readable by the report |
| Events.RecentEventReported | bot.py:94-96 | an entry logged less than a week before now, counted from the start of its minute, is reported |
| Events.StaleEventDropped | bot.py:94-96 | an entry logged a week or more before now, counted from the start of its minute, is not reported |
| Bot.PumpCommands | bot.py:85-90 | bot.py's pump_on writes LOW then HIGH to the pump pin with a sleep of `delay` between, and writes the marker exactly once, after the HIGH |
| Bot.LastWateredAfterManual | bot.py:89-90 | after a manual watering, get_last_watered reads back "Last watered " and `str(now)` |
| Bot.PumpOffAfter | bot.py:85-88 | a pump run appended to any history leaves HIGH as the last level on the pump pin |
| Bot.ScheduleMessage | bot.py:63-67 | the reply is "No watering schedule set." exactly when the schedule is missing or empty; otherwise it is exactly "Current watering schedule: " followed by the stored schedule |
| Bot.Requested | bot.py:133-138 | a time handle_set_schedule stores is a zero-padded clock time 00:00..23:59 (with at most one trailing newline), and it is the field `split("/setSchedule ")[1]` of the message |
| Bot.ScheduleCommandAccepted | bot.py:133-138 | for an argument that does not itself contain "/setSchedule ", the message "/setSchedule " followed by it stores the argument when it is a valid time and nothing otherwise |
| Bot.ValidScheduleCommandAccepted | bot.py:133-136 | "/setSchedule " followed by a valid time stores exactly that time |
| Bot.ArgumentEndsAtSeparator | bot.py:134-136 | "/setSchedule " followed by a valid time, then "/setSchedule " again and anything at all, stores exactly that time: the argument ends where the separator occurs again |
| Bot.Bot.constructor | bot.py:27-41 | start-up loads the stored schedule (None when the file is missing) and the stored log ([] when missing), writes HIGH to the pump pin, and establishes PumpOff |
| Bot.Bot.SetSchedule | bot.py:55-60 | the schedule becomes the time, then the schedule file is saved, then the confirmation is sent; the log and the pump are untouched |
| Bot.Bot.HandleSetSchedule | bot.py:131-140 | a valid argument replaces the schedule by exactly that text. An invalid one sends the format reminder, and a missing one sends the usage text; both leave the schedule unchanged |
| Bot.Bot.ViewSchedule | bot.py:142-144 | one message with ScheduleMessage of the current schedule; nothing else changes |
| Bot.Bot.LogWateringEvent | bot.py:70-78 | the log grows by exactly one entry at the end, made at `now` with the given manual flag and level, and the whole log is then saved |
| Bot.Bot.PumpOn | bot.py:85-90 | appends pump_on's steps and leaves the pump off |
| Bot.Bot.WaterNow | bot.py:44-47 | pump run first, then the "Watering plants manually now!" message, then a manual log entry and the log save; the pump ends off |
| Bot.Bot.GenerateWeeklyReport | bot.py:93-106 | when every timestamp is readable, it writes the CSV with exactly the filtered rows, sends the announcement and then the file. On an unreadable timestamp nothing is written or sent. The schedule, the log and the pump state do not change |

## Left out

- Chat traffic is modelled only as effects. `send_message` and `send_document` are recorded only as `Message` and `SendReport` effects; `infinity_polling` (bot.py:154), the loop that receives the commands, is not modelled. `chat_id`, which `greet` sets, is not modelled, and neither are the greet, help and default handlers (bot.py:109-125, 150-152), which only reply with fixed texts.
- Bot.Bot.WaterNow, Bot.Bot.GenerateWeeklyReport and the other handlers take every chat send to succeed. In Python a `send_message` raises while `chat_id` is still None (before `/start`, bot.py:19 and 112), or on a network error. That exception ends the handler: water_now then logs no event (bot.py:46-47), and generate_weekly_report has already written the CSV but sends nothing (bot.py:105-106). The model's contracts always include the effects after the send.
- Water.ReadNewlines: reading the marker also decodes its bytes with the platform's text encoding; the model works on characters and does not model decoding errors.
- GPIO: `GPIO.setmode`, `GPIO.setup` and `GPIO.cleanup` are not recorded; only level writes are. Sensor reads (`get_status`, `get_current_moisture_level`) are inputs of the model.
- The `KeyboardInterrupt` handler of auto_water (water.py:38-39) is left out. A finite sequence of readings stands in for the interrupted infinite loop. The loop's `print` is left out.
- Sleeps are recorded with their length, but no time passes in the model: the clock values are independent parameters.
- `datetime.now()` is a parameter everywhere. water_now takes two instants, because pump_on and log_watering_event each read the clock.
- File formats are not modelled: the JSON of the schedule and the log, the CSV text and its header row. The schedule file is taken to hold a string. A JSON value of another type, and log entries without the expected keys (a KeyError in the report), are not modelled.
- Commands.IsValidTimeFormat: `\d` accepts only ASCII digits here; Python's also matches other Unicode decimal digits.
- Timestamps.Parse accepts only the canonical zero-padded 16-character form that log_watering_event writes. Python's strptime also accepts single-digit fields and some extra whitespace, so a hand-edited log could be readable in Python and not in the model.
- Timestamps.Format always pads the year to four digits. strftime's `%Y` on some platforms prints years before 1000 without padding.
- Events.Cutoff is an unbounded integer instant. In Python, `now - timedelta(days=7)` overflows for dates in the first week of year 1.
- `soil.py` and `test_pins.py` are not part of this model. soil.py registers an edge-triggered callback that returns "Soil is dry" or "Soil is wet"; test_pins.py toggles a pin in a loop.
- Bot.Bot.WaterNow, Bot.Bot.PumpOn: handlers are modelled as running one at a time. `telebot.TeleBot(API_TOKEN)` (bot.py:14) keeps the library's threaded default, so `infinity_polling` (bot.py:154) runs handlers on a worker pool. Two `/waternow` commands can then overlap during pump_on's sleep (bot.py:87), and when one handler returns the last level on pin 7 can be the other's LOW. Their `PumpOff` postcondition holds for sequential handling only.
- The source has no scheduler acting on the stored schedule, no cooldown, no locks and no try/finally around the pump, and the model adds none. An exception in the middle of a pump run, which would leave the pump on, is not modelled.
