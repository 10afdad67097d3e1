# rezerwacje-duw-go, modelled in Dafny

rezerwacje-duw-go books visits at the Lower Silesian Voivodeship Office
(DUW): legalisation appointments at the city offices and visits to heads
of department. It picks the offices whose latest bookable date falls on an
allowed weekday, locks a free term, solves the captcha and posts the
applicant's form data. This project models the decision logic of that
program and the bounded, de-duplicating reservation queue it ships with,
and proves properties of both.

| file | module | what it models |
|---|---|---|
| `wrappers.dfy` | `Wrappers` | `Option` and `Result` (Go's `nil` and `error`) |
| `config.dfy` | `Config` | `Entity`, `Row`, the localised `Strings`, `UserConfig`; `IsPermanentResidence` and the form-row builder `CollectUserData` |
| `cmd.dfy` | `Cmd` | the command-line parser `ParseArgs` and the usage examples of the help text |
| `dates.dfy` | `Dates` | `time.Parse` with the layout `2006-01-02`, the zero time, the weekday (Appendix B of RFC 3339) and the two weekday rules |
| `booking.dfy` | `Booking` | the lock-response test, the captcha check, the time string, and the program-wide mutex through `lock`, `reserve` and `makeReservation` |
| `selection.dfy` | `Selection` | `collectActiveEntities`, `collectActiveDepartments`, `collectActiveCities` |
| `heap.dfy` | `Heap` | the `priorityQueue` slice with its `heap.Interface` methods, `Lowest`, `Index`, and the sift-up and sift-down of `container/heap` |
| `queue_spec.dfy` | `QueueSpec` | the abstract behaviour of `ReservationQueue`: a stack of reservations, oldest first, plus the key set of `items` |
| `queue.dfy` | `Queue` | `ReservationQueue` as a class over the heap, proved against `QueueSpec` |
| `queue_scenarios.dfy` | `QueueScenarios` | the scenarios of `queue/queue_test.go`, replayed against the class |

Modelling decisions:
- The state the source changes in place is modelled as classes. These are
  the heap slice (`Heap.PriorityQueue`, a `seq` field), the queue with its
  `items` map and clock (`Queue.ReservationQueue`), and the global mutex
  together with the requests sent (`Booking.Booker`).
- The pure decisions are functions: the lock-response test, the weekday
  rules and the argument parser.
- The loops of `CollectUserData`, the `collect*` functions, `Lowest`,
  `Index` and the sift-up and sift-down are methods with loop invariants.
- The queue's priority is `time.Now().Sub(q.time)`. Here it is the counter
  `clock`, which every priority read advances (`Elapsed`). So every push
  outranks everything already queued.
- That ordering lets the heap be read as a list of entries in ascending
  priority. The ghost field `Order` holds that list, and equals the heap's
  entries as a multiset. `Model()` turns it into the `QueueSpec` view.
- `container/heap` is not among the source files. `Fix`, `HeapPush` and
  `HeapPop` follow its standard algorithm. `Fix` sifts down and, if the item
  did not move, sifts up. The sift-down always swaps with the child that
  `Less` ranks first.
- `config/config.go` is an older version of the configuration: it declares
  `City` and `row`, while `main.go` and `queue/queue.go` use `config.Entity`
  and `config.Row`. `Entity` has the four fields that `queue/queue_test.go:21`
  fills in.
- The user configuration, the application configuration and `os.Args[1:]`
  are parameters.
- `latestDate` is a function parameter of the `collect*` methods, and so is
  the department or city catalog.
- The answers of the booking service are parameters of the booking methods.
  These are the lock response, the recognised captcha and the captcha
  check's body.
- Go keys its maps of entities by `*config.Entity` pointers. It compares
  reservations by struct value, but a `Reservation`'s `Entity` and
  `UserData` fields are pointers. Here everything is compared by value:
  as map keys, in `items`, and in `Index`.

## Model

| member | source | states |
|---|---|---|
| Config.IsPermanentResidence | config/config.go:66-69 | every residence type except the exact word "temporary", the empty one included, is permanent |
| Config.ApplicantLabel | config/config.go:144-153 | the label of an additional application: child, spouse and children have their localised labels; any other kind gets "" because the switch has no default |
| Config.CollectUserData | config/config.go:127-156 | 7 rows, plus 1 for a residence card, plus one per additional application. In order: residence type (temporary only for the exact word "temporary"), "surname name", citizenship, date of birth, phone, passport, the card row exactly when a card is given, the consent row. Then one row per additional application, in input order, labelled child, spouse or children, or "" for any other kind |
| Cmd.ParseArgs | cmd/cmd.go:43-72 | every error result has command "" and no list; without an error the command is the first word; a returned list is `args[2..]` and not empty |
| Cmd.ParseArgsAccepts | cmd/cmd.go:43-72 | parsing succeeds exactly for: `application` alone, `application city` with at least one name, `headof` with at least three words, or `help` with anything after it; the command is then one of the three known ones |
| Cmd.NoCommand | cmd/cmd.go:71 | an empty command line is the error "No command given" |
| Cmd.ApplicationCases | cmd/cmd.go:48-59 | `application` alone gives no list; `city` with names gives those names; `city` without names, or any other option, is the matching error |
| Cmd.HeadofCases | cmd/cmd.go:60-64 | `headof` with three words or more returns the words after the second, whatever the second is; with fewer it is "No department given" |
| Cmd.HelpAndUnknown | cmd/cmd.go:65-68 | `help` ignores what follows it; any other first word is "Unknown command [word]" |
| Cmd.HeadExampleRejected | cmd/cmd.go:36 | the head-of-department example of the help text, as written, is rejected as "Unknown command [head]" |
| Cmd.CorrectedExamplesAccepted | cmd/cmd.go:25-36 | with the command spelled `headof`, every example of the help text is accepted, and the head-of-department one names LP1 |
| Dates.Parse | main.go:163-166 | a date comes back exactly when the text has the layout's shape (four digits, dash, two digits, dash, two digits, nothing more), a month 1 to 12 and a day within that month; that date then formats back to the same text |
| Dates.FormatParse | main.go:164-165 | every date of years 0 to 9999 is read back from its own text |
| Dates.ParseDate | main.go:163-167 | the parsed date, or Go's zero time 0001-01-01 when the parse fails |
| Dates.DayCount | main.go:179-182 | the weekday sum of Appendix B of RFC 3339 before its `% 7`, with March as the first month; it has no contract of its own: `ZeroTimeIsMonday`, `SampleThursday`, `SampleSunday` and `NextDayIsNextWeekday` tie it to the calendar |
| Dates.WeekdayOf | main.go:179-182 | `time.Weekday` of a date, read from `DayCount` modulo 7 with Sunday as 0; no contract of its own, for the same reason |
| Dates.DayOfWeek | main.go:179-182 | the weekday of the parsed date; text that does not parse gives Monday, the weekday of the zero time |
| Dates.ValidCityDate | main.go:169-172 | the city rule: the weekday is neither Saturday nor Sunday; stated over the calendar by `RulesByWeekday` |
| Dates.ValidDepartmentDate | main.go:174-177 | the department rule: the weekday is Tuesday or Thursday; stated over the calendar by `RulesByWeekday` |
| Dates.RulesByWeekday | main.go:169-177 | the city rule holds exactly on Monday to Friday; the department rule exactly on Tuesday and Thursday |
| Dates.DepartmentDateIsCityDate | main.go:174-177 | every date a department accepts is one a city office accepts |
| Dates.ZeroTimeIsMonday | main.go:179-182 | the zero time falls on a Monday |
| Dates.UnparsableIsMonday | main.go:163-182 | text that does not parse counts as a Monday, so it passes the city rule and fails the department rule |
| Dates.SampleThursday | main.go:179-182 | 2017-07-20 is a Thursday, accepted by both rules |
| Dates.SampleSunday | main.go:179-182 | 2017-07-23 is a Sunday, rejected by both rules |
| Dates.NextDayIsNextWeekday | main.go:181 | the weekday formula agrees with the calendar: the day after any date, across month and year ends and leap days, falls on the next weekday |
| Booking.ParseLockResult | main.go:130-131 | a response locks exactly when it starts with "OK" and has at least three characters; the slot is the response without its first three; the bare response "OK" is the slice panic |
| Booking.CaptchaAccepted | main.go:73-78 | the captcha check passes exactly when the service's body is the exact text "true" |
| Booking.ReservationTime | main.go:141 | the time string is four characters longer than the date and the term together (a space and ":00") |
| Booking.ReservationTimeParts | main.go:141 | the date, the space, the term and ":00" can be read back from the time string |
| Booking.ReservationTimeInjective | main.go:141 | for dates of one length, different (date, term) pairs give different time strings |
| Booking.ReserveRequests | main.go:99-112 | the captcha is fetched and checked first; after an accepted check the form data for the slot is posted and the slot is confirmed, and nothing else is sent; after a rejected check nothing follows |
| Booking.AcceptedAttemptPostsAndConfirms | main.go:103-108 | a locked slot and an accepted captcha send exactly the lock, the captcha fetch, the check, the form data and the confirmation of that slot, and leave the mutex held |
| Booking.Attempt | main.go:140-145 | every attempt starts with the lock request for the built time string and the entity's queue |
| Booking.AttemptHoldsOnSuccess | main.go:126-145 | the mutex stays held after an attempt exactly when the response starts with "OK" and the captcha body is "true" |
| Booking.PostedOnlyAfterCheck | main.go:103-108 | form data is posted only for a locked slot and an accepted captcha, as the fourth request, right after the check and right before the confirmation of the same slot |
| Booking.FailedLockSendsOnlyLock | main.go:135-137 | a response without "OK" sends the lock request alone and releases the mutex |
| Booking.Booker.constructor | main.go:22 | the mutex starts free and nothing has been sent |
| Booking.Booker.Lock | main.go:126-138 | locked exactly when the response starts with "OK"; the slot is then the response without its first three characters, and "" otherwise; the mutex is held exactly when locked; one lock request is sent |
| Booking.Booker.Reserve | main.go:99-112 | the mutex stays held exactly when the captcha body is "true"; the requests sent are those of the captcha step |
| Booking.Booker.MakeReservation | main.go:140-145 | the requests sent and the final state of the mutex are those of `Attempt`: `reserve` runs only after a successful lock |
| Selection.CollectActiveEntities | main.go:189-202 | the map's keys are exactly the entities whose latest date passes the rule, each mapped to that date |
| Selection.WithShortNameMembers | main.go:205-210 | the department filter keeps exactly the catalog entries with the requested short name |
| Selection.CollectActiveDepartments | main.go:204-218 | failure "Unsupported department [name]" exactly when no department has that short name; otherwise the keys are exactly the departments of that name whose latest date is a Tuesday or a Thursday, each mapped to its date |
| Selection.PerNameCount | main.go:224-228 | a city is added once for every requested name equal to its short name |
| Selection.SelectCitiesMembers | main.go:220-232 | a city is selected exactly when it is in the catalog and, when names were given, its short name is one of them; no list selects the whole catalog |
| Selection.CollectActiveCities | main.go:220-235 | the keys are exactly the selected cities whose latest date is not at a weekend, each mapped to its date |
| Heap.RootIsMax | queue/queue.go:38-40 | with `Less` ordering by descending priority, the root of a valid heap has the highest priority |
| Heap.OverwriteRepairable | queue/queue.go:84-88 | overwriting one item of a valid heap, with its index kept, leaves a heap that `Fix` can repair |
| Heap.PriorityQueue.Len | queue/queue.go:36 | the number of items in the slice |
| Heap.PriorityQueue.Less | queue/queue.go:38-40 | item `i` comes out before item `j` when its priority is higher, so the heap is a max-heap on priority |
| Heap.PriorityQueue.constructor | queue/queue.go:65-67 | an empty slice is a valid heap |
| Heap.PriorityQueue.Swap | queue/queue.go:42-46 | the two items trade places and record their new positions; the entries, as a multiset, are unchanged |
| Heap.PriorityQueue.PushBack | queue/queue.go:48-53 | the item is appended with its index set to its position |
| Heap.PriorityQueue.PopBack | queue/queue.go:55-62 | the last item is removed and returned with index -1 |
| Heap.PriorityQueue.Up | queue/queue.go:91-93 | the sift-up restores a valid heap when only the rising item's edge to its parent is out of order; the entries are unchanged |
| Heap.PriorityQueue.Down | queue/queue.go:80-82 | the sift-down over the first `n` items restores their order when only the edges around the sinking item are out of order; the entries are unchanged; it reports whether the item moved: when it did, a higher-priority child now sits at the start position and the slice differs; when it did not, the slice is unchanged |
| Heap.PriorityQueue.Fix | queue/queue.go:80-82 | a repairable heap becomes a valid heap with the same entries |
| Heap.PriorityQueue.HeapPush | queue/queue.go:91-93 | one more item, the new entry added, the heap valid |
| Heap.PriorityQueue.HeapPop | queue/queue.go:134 | the root is removed and returned: its priority is at least every item's; the heap stays valid with one entry fewer |
| Heap.PriorityQueue.Lowest | queue/queue.go:96-104 | the position of an item of least priority, the first such in slice order |
| Heap.PriorityQueue.Index | queue/queue.go:106-113 | -1 exactly when no item holds the reservation; otherwise the position of the first item that does |
| Queue.LowestIsOldest | queue/queue.go:121-122 | the item of least priority holds the oldest queued entry |
| Queue.HighestIsNewest | queue/queue.go:132-136 | the item of highest priority holds the newest queued entry |
| Queue.ReservationQueue.New | queue/queue.go:64-72 | an empty queue without a limit, with nothing recorded |
| Queue.ReservationQueue.NewWithLimit | queue/queue.go:74-78 | an empty queue with the given limit |
| Queue.ReservationQueue.Elapsed | queue/queue.go:87 | each priority read returns a strictly later value |
| Queue.ReservationQueue.Update | queue/queue.go:84-89 | item `i` gets the reservation and a fresh priority; the heap stays valid and only that entry changes |
| Queue.ReservationQueue.Len | queue/queue.go:156-164 | the number of queued reservations |
| Queue.ReservationQueue.HeapInItems | queue/queue.go:128 | every reservation in the heap is recorded in `items` |
| Queue.ReservationQueue.Push | queue/queue.go:115-130 | the new state is `QueueSpec.Push` of the old one, and the queue stays valid |
| Queue.ReservationQueue.FindQueued | queue/queue.go:119 | `Index` finds a queued reservation at the heap position of its entry |
| Queue.ReservationQueue.PushRefresh | queue/queue.go:118-119 | a queued reservation moves to the newest end; nothing else changes |
| Queue.ReservationQueue.PushEvict | queue/queue.go:121-122 | at the limit the oldest reservation is replaced and the new one becomes the newest; the replaced one is returned |
| Queue.ReservationQueue.PushAppend | queue/queue.go:123-126 | the new reservation is added as the newest |
| Queue.ReservationQueue.PushCorrected | queue/queue.go:115-130 | the new state is `QueueSpec.PushFixed` of the old one, and the queue stays valid |
| Queue.ReservationQueue.Pop | queue/queue.go:132-145 | the result and the new state are `QueueSpec.Pop` of the old state, and the queue stays valid |
| Queue.ReservationQueue.Take | queue/queue.go:147-154 | on a non-empty queue, Take is Pop and returns its reservation |
| QueueSpec.Empty | queue/queue.go:64-72 | nothing queued, nothing recorded |
| QueueSpec.IndexOf | queue/queue.go:106-113 | the position of the first occurrence |
| QueueSpec.Push | queue/queue.go:115-130 | the pushed reservation is recorded and is the newest |
| QueueSpec.Pop | queue/queue.go:132-139 | nothing, and no change, exactly when the queue is empty; otherwise the newest reservation, one fewer queued, and that reservation no longer recorded |
| QueueSpec.PushKeepsInv | queue/queue.go:115-130 | a push keeps the invariant: no reservation queued twice, every queued one recorded, never more than the limit |
| QueueSpec.PopKeepsInv | queue/queue.go:132-139 | a pop keeps the invariant |
| QueueSpec.PushExistingKeepsLength | queue/queue.go:118-119 | pushing a queued reservation keeps the length and the multiset of queued reservations |
| QueueSpec.PushNewLength | queue/queue.go:121-126 | a new reservation below the limit adds exactly one; at the limit the length stays at the limit |
| QueueSpec.PushedIsNext | queue/queue.go:38-40 | the reservation just pushed is the next one out |
| QueueSpec.PushPopRoundTrip | queue/queue.go:123-139 | below the limit, pushing a new reservation and popping returns it and restores the queue |
| QueueSpec.PushAtLimitEvictsOldest | queue/queue.go:121-122 | at the limit, a new reservation evicts exactly the oldest one, which stays recorded |
| QueueSpec.PushIdempotent | queue/queue.go:118-119 | pushing the same reservation twice in a row is pushing it once |
| QueueSpec.PushThriceLeavesOne | queue/queue_test.go:23-26 | three pushes of one reservation into an empty queue leave it queued once |
| QueueSpec.PushNewKeepsNewest | queue/queue.go:121-126 | one push of a new reservation leaves the newest `limit` of the old queue followed by it |
| QueueSpec.PushAllKeepsNewest | queue/queue_test.go:75-79 | after a run of new, distinct pushes the queue holds the newest `limit` of everything pushed, oldest first, and keeps the invariant |
| QueueSpec.PopAllNewestFirst | queue/queue_test.go:43-47 | draining hands out every queued reservation, newest first |
| QueueSpec.PushAllFromEmpty | queue/queue_test.go:72-79 | distinct pushes into an empty queue leave the newest `limit` of them |
| QueueSpec.PushThenDrain | queue/queue_test.go:71-85 | pushing distinct reservations and draining returns the newest `limit` of them in reverse push order |
| QueueSpec.StaleKeyAfterEviction | queue/queue.go:118-128 | as written, with limit 1, pushing a then b leaves a recorded but not queued, so a cannot be pushed again |
| QueueSpec.PushFixed | queue/queue.go:121-128 | the corrected push queues what `Push` queues, and records the pushed reservation |
| QueueSpec.PushFixedKeepsInv | queue/queue.go:121-128 | the corrected push keeps the invariant |
| QueueSpec.PushFixedKeepsTidy | queue/queue.go:121-128 | the corrected push keeps the recorded keys equal to the queued reservations |
| QueueSpec.PopKeepsTidy | queue/queue.go:132-139 | popping keeps the recorded keys equal to the queued reservations |
| QueueSpec.EvictedCanReturn | queue/queue.go:121-128 | with the corrected push and limit 1, pushing a then b records only b, so a can be pushed again |
| QueueScenarios.Uniqueness | queue/queue_test.go:18-33 | three pushes of one reservation give length 1; it pops; length 0; pushed again, length 1; it pops again; length 0 |
| QueueScenarios.PushEach | queue/queue_test.go:75-78 | pushing new, distinct reservations in turn leaves the newest `limit` of the old queue and the pushes |
| QueueScenarios.Ordering | queue/queue_test.go:35-48 | three pushes give length 3 and pop as 2017-07-22, 2017-07-21, 2017-07-20, then length 0 |
| QueueScenarios.Limit | queue/queue_test.go:71-90 | with limit 3, five pushes give length 3 and pop as 24, 23, 22, then nothing and length 0; 22 pushed again gives length 1 and pops |
| QueueScenarios.EvictThenReturn | queue/queue.go:121-128 | with the corrected push and limit 1, a then b then a again gives length 1, a pops, and length 0 |

## Left out

- Concurrency is not modelled. That covers `Take`'s wait on the condition variable and `Signal` in `Push`. It also covers the race where `Push` holds `pushLock` while `Pop` and `Len` hold `lock`. The goroutines of `process` and `main` are left out too. Every operation here runs alone.
- Queue.ReservationQueue.Take: requires a non-empty queue; an empty queue makes Go wait for a push from another goroutine.
- `tryLock` sends the lock request from five goroutines and keeps the first answer. Here that is one lock request, and the answer is a parameter.
- The wall clock is replaced by an increasing counter. Go's nanosecond `int64` priority and its wrap-around are not modelled.
- HTTP, the session and its retries, the captcha image and its recognition, the JSON and regexp scrapers, logging, YAML loading, `login`, `await`, `process` and `main` are not modelled: they are I/O, or code the source files do not contain. For `login`, this includes its status-code test.
- Go compares entities and reservations by pointer; the model compares them by value. `items` is keyed by the `Reservation` struct, whose `Entity` and `UserData` fields are pointers.
- Selection.CollectActiveEntities: `latestDate` is a pure function here. In Go it is a fresh HTTP request each time, so a city selected twice (a repeated name) may get two different dates. Go stores a date only when it passes the rule, so the last date that passes wins, and a later one that fails leaves the earlier one in the map.
- Queue.ReservationQueue.Push: requires `QueueSpec.CanPush`. Re-pushing a reservation that was evicted but is still recorded makes Go's `update` index position -1 and panic; see Findings.
- Queue.ReservationQueue.NewWithLimit: requires a limit of -1 or at least 1. With limit 0, the first push runs `Lowest` on an empty heap and dereferences `nil`.
- Booking.Booker.Lock: requires that the response is not the bare "OK". Slicing it at 3 panics in Go. `Booking.ParseLockResult` states that case as `SlicePanic`.
- Booking.Booker.Lock: requires a free mutex. On a held one Go blocks until another goroutine unlocks it. After a successful `reserve` nothing ever unlocks the mutex, so every later `lock` call blocks forever; the model has no state for a blocked call.
- Booking.ParseLockResult: slices characters, while Go's `lockResult[3:]` slices bytes. The slot differs when the third character is not ASCII, as in "OKé…". `Booking.Booker.Lock` does the same.
- Booking.ReservationTime: its length is counted in characters, not in the bytes Go's `len` counts.
- Booking.Attempt: requires the same as `Lock` about the response.
- `pop` and `Pop`, and `len` and `Len`, differ only by locking; each pair is one method.
- Dates.DayCount: uses floor division where the C code of Appendix B of RFC 3339 truncates. They differ only in January and February of year 0, which Go's layout accepts. There floor division gives the proleptic Gregorian weekday that Go computes.

## Findings

| source | as written | input that shows it | evidently intended | confidence | as-written member | corrected member |
|---|---|---|---|---|---|---|
| queue/queue.go:121-122 | at the limit, `Push` overwrites the lowest item but never deletes the evicted reservation from `items` | limit 1: push a, push b, push a; a is still in `items`, so `Index` returns -1 and `update` indexes position -1 | the evicted reservation is also deleted from `items`, so it can be pushed again | not executed | QueueSpec.StaleKeyAfterEviction | QueueSpec.PushFixed |
| cmd/cmd.go:36 | the help text's example for heads of department spells the command `head` | `head department LP1` is rejected as "Unknown command [head]" | the example reads `headof department LP1` | not executed | Cmd.HeadExampleRejected | Cmd.CorrectedExamplesAccepted |

The corrected queue push is `QueueSpec.PushFixed`. `QueueSpec.PushFixedKeepsTidy` proves that it keeps the recorded keys equal to the queued reservations. `QueueSpec.EvictedCanReturn` shows the failing input succeeding with it. The class implements it as `Queue.ReservationQueue.PushCorrected`, and `QueueScenarios.EvictThenReturn` replays the failing input with it. `Queue.ReservationQueue.Push` keeps the behaviour as written.
