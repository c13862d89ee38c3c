# PlaylistCardAdapter, modelled in Dafny

`PlaylistCardAdapter` is the list adapter of the YouTube playlist browser. It
shows a page of playlist videos as cards in a recycler view. Two fixed slots,
positions 0 and 6, hold advertisements. When the card slot at position
`size - 1` is bound while the cursor is still on a video, a listener is set
and the next-page token is non-empty, the adapter asks its listener for the
next page. The
card in that slot shows the video under the adapter's cursor, so in a first
scroll it is an earlier video than the last one. Each card
shows the video's duration. YouTube typically reports it in the compact ISO 8601 form
`PT[<m>M][<s>S]` (section 4.4.3.2 of ISO 8601:2004), and `parseDuration`
turns it into `<minutes>:<seconds>`.

The project has three modules.

- `JavaLang` (JavaLang.dfy) models the pieces of the Java platform the
  adapter relies on:
  - exceptions, as a `Result` that is either `Success(value)` or
    `Throws(exception)`;
  - a `null`-able reference, as an `Option`;
  - Java's 32-bit `int`, as a newtype whose `++` wraps around;
  - `String.indexOf`, `String.substring` and `String.split` with a
    one-character separator. Leading empty pieces are kept and trailing
    empty ones dropped. A string without the separator splits into itself.
- `Duration` (Duration.dfy) models `parseDuration` as a function.
  - Every Java exception it can raise is a `Throws` result rather than a
    precondition.
  - Its branches are stated as lemmas.
  - A round trip shows that it inverts the rendering of every well-formed
    `PT[<m>M][<s>S]` duration.
- `Adapter` (Adapter.dfy) models the rest of the adapter:
  - `getItemViewType`, `getItemCount` and `isEmpty`, as functions;
  - one `onBindViewHolder` call, as the pure state machine `Step`;
  - the adapter itself, as the class `PlaylistCardAdapter`. It has the
    mutable cursor `counter` and a ghost log of the `onLastItem`
    notifications it has posted. Its method `Bind` is proved equal to
    `Step` with `ParseDuration` as the duration formatter.

`Step` takes the formatter as a parameter, so the lemmas about binding hold
for any formatter. A formatter that throws leaves the state unchanged, just
as an exception from `parseDuration` leaves `counter++` unreached. The lemmas
about `Step` state:

- what one bind does;
- that the cursor, not the position, chooses the video;
- exactly when a next-page request is posted;
- what a first in-order scroll over all `getItemCount()` slots shows.

## Model

| member | source | states |
|---|---|---|
| `JavaLang.Increment` | app/src/main/java/com/akoscz/youtube/PlaylistCardAdapter.java:171 | `counter++` on a Java `int` is one more modulo 2^32, and exactly one more below `INT_MAX` |
| `JavaLang.IndexOf` | app/src/main/java/com/akoscz/youtube/PlaylistCardAdapter.java:203-204 | `indexOf` is -1 exactly when the character is absent; otherwise it is an index holding the character, with no occurrence before it |
| `JavaLang.Substring` | app/src/main/java/com/akoscz/youtube/PlaylistCardAdapter.java:207-211 | `substring(begin, end)` succeeds exactly when `0 <= begin <= end <= length`, with the characters in that range; otherwise it throws `StringIndexOutOfBoundsException` |
| `JavaLang.PiecesAvoidSeparator` | app/src/main/java/com/akoscz/youtube/PlaylistCardAdapter.java:217 | no piece of a split contains the separator |
| `JavaLang.JoinOfPieces` | app/src/main/java/com/akoscz/youtube/PlaylistCardAdapter.java:217 | joining the pieces of a string cut at every separator (`Pieces`) with the separator gives back that string |
| `JavaLang.PiecesOfJoin` | app/src/main/java/com/akoscz/youtube/PlaylistCardAdapter.java:217 | cutting at every separator (`Pieces`, before `split` drops trailing empty pieces) a non-empty list of separator-free pieces joined by the separator gives back those pieces |
| `JavaLang.DropTrailingEmpty` | app/src/main/java/com/akoscz/youtube/PlaylistCardAdapter.java:217 | `split` keeps a prefix of the pieces, drops only empty ones, and what it keeps does not end in an empty piece |
| `JavaLang.Split` | app/src/main/java/com/akoscz/youtube/PlaylistCardAdapter.java:217 | `split` of a string without the separator is that string alone, and no piece it returns contains the separator |
| `JavaLang.DropTrailingEmptyLength` | app/src/main/java/com/akoscz/youtube/PlaylistCardAdapter.java:217-219 | more than `k` pieces survive exactly when some piece from index `k` on is non-empty |
| `JavaLang.PiecesAllEmpty` | app/src/main/java/com/akoscz/youtube/PlaylistCardAdapter.java:217-219 | all pieces of a string are empty exactly when it holds nothing but separators |
| `JavaLang.SplitFirst` | app/src/main/java/com/akoscz/youtube/PlaylistCardAdapter.java:217-218 | `split[0]` exists unless the string is made of separators only, and is the text before the first separator |
| `JavaLang.SplitSecond` | app/src/main/java/com/akoscz/youtube/PlaylistCardAdapter.java:217-219 | `split[1]` exists exactly when something other than a separator follows the first separator, and is the text up to the next separator or the end |
| `Duration.HasMarker` | app/src/main/java/com/akoscz/youtube/PlaylistCardAdapter.java:203-204 | a unit marker is detected exactly when the letter occurs and the input does not start with it; `S` and `M` are detected independently |
| `Duration.Strip` | app/src/main/java/com/akoscz/youtube/PlaylistCardAdapter.java:206-211 | cutting off the `PT` prefix, and the final letter when seconds are present, succeeds exactly when the input has 2 (3 with seconds) characters or more, and otherwise throws `StringIndexOutOfBoundsException` |
| `Duration.Fields` | app/src/main/java/com/akoscz/youtube/PlaylistCardAdapter.java:213-224 | minutes default to `0` without the `M` marker and seconds to `00` without the `S` marker; with `M`, the minutes are the text before the first `M` of the stripped text, and with `S` alone the seconds are all of it; the minutes-only case throws exactly when that text has no `M`, from `substring`, and the both-markers case throws only from the `split` array access |
| `Duration.PadSeconds` | app/src/main/java/com/akoscz/youtube/PlaylistCardAdapter.java:226-229 | seconds of length exactly 1 gain one leading `0`; seconds of any other length are unchanged |
| `Duration.ParseDuration` | app/src/main/java/com/akoscz/youtube/PlaylistCardAdapter.java:202-232 | the only exceptions are `StringIndexOutOfBoundsException` and `ArrayIndexOutOfBoundsException`; a result needs an input of two characters or more and contains a colon. Each marker combination is stated exactly by `ParseWithoutMarkers`, `ParseSecondsOnly`, `ParseMinutesOnly` and `ParseMinutesAndSeconds`, and the round trip by `ParseRendered` |
| `Duration.ParseWithoutMarkers` | app/src/main/java/com/akoscz/youtube/PlaylistCardAdapter.java:202-231 | with neither marker the result is `0:00`, or `StringIndexOutOfBoundsException` for an input shorter than two characters |
| `Duration.ParseSecondsOnly` | app/src/main/java/com/akoscz/youtube/PlaylistCardAdapter.java:202-231 | with only the `S` marker, minutes are `0` and seconds are the padded text between `PT` and the last character; a two-character input throws |
| `Duration.ParseMinutesOnly` | app/src/main/java/com/akoscz/youtube/PlaylistCardAdapter.java:202-232 | with only the `M` marker, minutes are the text after `PT` up to its first `M` and seconds are `00`; the call throws from `substring` exactly when no `M` follows the `PT` prefix |
| `Duration.ParseMinutesAndSeconds` | app/src/main/java/com/akoscz/youtube/PlaylistCardAdapter.java:202-232 | with both markers the input has at least three characters; minutes are the stripped text before its first `M`, and seconds are the padded text from there to the next `M` or the end; `split[1]` throws exactly when the stripped text has no `M` or only `M`s follow its first one |
| `Duration.FieldsWithBothMarkers` | app/src/main/java/com/akoscz/youtube/PlaylistCardAdapter.java:216-219 | the two fields `split("M")` yields from the stripped text, and when `split[1]` is missing |
| `Duration.ParseMinutesSecondsText` | app/src/main/java/com/akoscz/youtube/PlaylistCardAdapter.java:202-231 | `PT<m>M<s>S` with an `M`-free minutes field and a non-empty, `M`-free seconds field gives `<m>:<padded s>` |
| `Duration.ParseMinutesText` | app/src/main/java/com/akoscz/youtube/PlaylistCardAdapter.java:202-231 | `PT<m>M` with an `M`- and `S`-free field gives `<m>:00` |
| `Duration.ParseSecondsText` | app/src/main/java/com/akoscz/youtube/PlaylistCardAdapter.java:202-231 | `PT<s>S` with an `M`-free field gives `0:<padded s>` |
| `Duration.ParseRendered` | app/src/main/java/com/akoscz/youtube/PlaylistCardAdapter.java:202-231 | on every well-formed `PT[<m>M][<s>S]` duration the result is its display form, with defaults `0` and `00`; `PT` gives `0:00`. With `DisplayHasOneColon`, the result is the minutes field, exactly one colon and the seconds field |
| `Duration.DisplayHasOneColon` | app/src/main/java/com/akoscz/youtube/PlaylistCardAdapter.java:231 | the displayed form holds exactly one colon, with the minutes field before it and the padded seconds field (or `00`) after it |
| `Duration.HoursStayInMinutes` | app/src/main/java/com/akoscz/youtube/PlaylistCardAdapter.java:216-219 | an hours part is not interpreted: `PT<h>H<m>M<s>S` gives minutes `<h>H<m>` |
| `Duration.HoursAloneShowZero` | app/src/main/java/com/akoscz/youtube/PlaylistCardAdapter.java:202-231 | `PT<h>H` has neither marker and shows `0:00` |
| `Duration.ExampleMinutesAndSeconds` | app/src/main/java/com/akoscz/youtube/PlaylistCardAdapter.java:202-231 | `PT1M5S` gives `1:05` |
| `Duration.ExampleTwoDigitMinutes` | app/src/main/java/com/akoscz/youtube/PlaylistCardAdapter.java:202-231 | `PT12M3S` gives `12:03` |
| `Duration.ExampleSecondsOnly` | app/src/main/java/com/akoscz/youtube/PlaylistCardAdapter.java:202-231 | `PT45S` gives `0:45` |
| `Duration.ExampleZeroSeconds` | app/src/main/java/com/akoscz/youtube/PlaylistCardAdapter.java:202-231 | `PT0S` gives `0:00` |
| `Duration.ExampleEmpty` | app/src/main/java/com/akoscz/youtube/PlaylistCardAdapter.java:202-231 | `PT` gives `0:00` |
| `Duration.ExampleHours` | app/src/main/java/com/akoscz/youtube/PlaylistCardAdapter.java:216-219 | `PT1H2M3S` gives `1H2:03` |
| `Adapter.ItemViewType` | app/src/main/java/com/akoscz/youtube/PlaylistCardAdapter.java:191-200 | the type is 2 (ad) exactly at positions 0 and 6, and 1 (card) exactly everywhere else |
| `Adapter.ItemCount` | app/src/main/java/com/akoscz/youtube/PlaylistCardAdapter.java:179-181 | the adapter reports one slot per video plus one per ad position; of these, `size` are card slots from five videos on, and `size + 1` below that |
| `Adapter.IsEmpty` | app/src/main/java/com/akoscz/youtube/PlaylistCardAdapter.java:183-188 | a string is empty exactly when it is `null` or has length 0 |
| `Adapter.RequestsNextPage` | app/src/main/java/com/akoscz/youtube/PlaylistCardAdapter.java:158-161 | a bound card asks for the next page exactly when the listener is set, the token is neither `null` nor empty, and the position is `size - 1` |
| `Adapter.WatchUrl` | app/src/main/java/com/akoscz/youtube/PlaylistCardAdapter.java:131 | the play and share URL is the watch prefix followed by exactly the video id |
| `Adapter.CardSlotsBelowClosedForm` | app/src/main/java/com/akoscz/youtube/PlaylistCardAdapter.java:191-200 | among positions `0 .. k-1` there are `k-1` card slots up to `k = 6`, and `k-2` beyond |
| `Adapter.Step` | app/src/main/java/com/akoscz/youtube/PlaylistCardAdapter.java:98-176 | one bind leaves the cursor or moves it by one `++`, and appends at most one notification to the log |
| `Adapter.BindAdSlot` | app/src/main/java/com/akoscz/youtube/PlaylistCardAdapter.java:174 | binding an ad slot (view type 2 from the switch at line 101) changes nothing |
| `Adapter.BindEmptyList` | app/src/main/java/com/akoscz/youtube/PlaylistCardAdapter.java:104-107 | binding a card slot of an empty list returns early and leaves the cursor and the log |
| `Adapter.BindShowsVideo` | app/src/main/java/com/akoscz/youtube/PlaylistCardAdapter.java:109-171 | a card slot, with the cursor on a video whose duration parses, shows that video and its formatted duration, moves the cursor on, and posts exactly when a next page is requested |
| `Adapter.BindCardAdvances` | app/src/main/java/com/akoscz/youtube/PlaylistCardAdapter.java:104-171 | on a card slot of a non-empty list the bind throws exactly when `get` or `parseDuration` does, and then changes nothing; otherwise the cursor rises by exactly one, also past the end of the list, where nothing is read or posted |
| `Adapter.BindNotifies` | app/src/main/java/com/akoscz/youtube/PlaylistCardAdapter.java:158-168 | a notification is posted exactly when a card slot reads a video that formats, the listener is set, the token is non-empty and the position is the last index; it is then the single `onLastItem(position, token)` |
| `Adapter.BindIgnoresPosition` | app/src/main/java/com/akoscz/youtube/PlaylistCardAdapter.java:109-110 | the cursor, not the position, picks the video: two card slots bound from one state show the same video and move the cursor alike |
| `Adapter.RebindShowsNextVideo` | app/src/main/java/com/akoscz/youtube/PlaylistCardAdapter.java:109-171 | binding the same card slot twice shows two consecutive list entries |
| `Adapter.Run` | app/src/main/java/com/akoscz/youtube/PlaylistCardAdapter.java:98-176 | a sequence of binds yields one outcome per bound position, keeps the log of posted requests as a prefix and adds at most as many requests as there are positions |
| `Adapter.FirstPass` | app/src/main/java/com/akoscz/youtube/PlaylistCardAdapter.java:98-200 | after a first in-order scroll over slots `0 .. k-1`, the cursor equals the card slots crossed (0 on an empty list), the cards show the list's first videos in order, and the log holds the request only if the card slot at position `size - 1` was crossed |
| `Adapter.FullFirstPass` | app/src/main/java/com/akoscz/youtube/PlaylistCardAdapter.java:98-200 | a first scroll over all `getItemCount()` slots shows every video exactly once, in order; the next page is requested only when the slot at position `size - 1` is a card slot, which never holds with one or seven videos |
| `Adapter.FirstPassRequestSlot` | app/src/main/java/com/akoscz/youtube/PlaylistCardAdapter.java:109-110 | in a first scroll the card slot at `size - 1`, which posts the request (lines 158-168), shows video `size - 2` below slot 6 and video `size - 3` beyond it, never the last video |
| `Adapter.PlaylistVideos.constructor` | app/src/main/java/com/akoscz/youtube/PlaylistCardAdapter.java:105-160 | the collection, which stands for the external `PlaylistVideos` type read by `size()`, `get` and `getNextPageToken()` at lines 105, 109-110 and 160, holds the given videos and token |
| `Adapter.PlaylistCardAdapter.constructor` | app/src/main/java/com/akoscz/youtube/PlaylistCardAdapter.java:70-73 | the adapter keeps the playlist and listener, and starts with an empty notification log |
| `Adapter.PlaylistCardAdapter.Bind` | app/src/main/java/com/akoscz/youtube/PlaylistCardAdapter.java:98-176 | `onBindViewHolder` updates the cursor and the notification log, and reports the slot's outcome, exactly as `Step` with `ParseDuration` does |

## Left out

- Widget work is not modelled: `onCreateViewHolder`, the `ViewHolder` classes, every `setText`, and Picasso's thumbnail loading. It is Android UI and a foreign asynchronous library.
- The tap and share listeners are not modelled. Starting an `Intent` is platform navigation. Only the watch URL they build is modelled, as `WatchUrl`. The share subject built from the title is left out too.
- The `DecimalFormat` formatting of view, like and dislike counts is not modelled. It is library number formatting.
- `holder.itemView.post(...)` defers the `onLastItem` call on the UI message queue. The model only appends the call to an ordered log, at the moment it is posted.
- `Video`, `VideoSnippet`, `VideoContentDetails`, `VideoStatistics` and `PlaylistVideos` are reduced to what the logic reads: a list of videos that each have an id and a duration string, and an optional next-page token.
- Exceptions from the parts left out are not modelled. These are a `null` snippet, content details, duration or statistics, or a `null` link in the thumbnail chain `getThumbnails().getHigh().getUrl()` at line 122, which throw `NullPointerException`; a failure inside Picasso's `load` or `into` at lines 121-124; and a `null` view, like or dislike count, for which `DecimalFormat.format` throws `IllegalArgumentException` (lines 154-156). Each of these ends the bind before the post at line 162 and before `counter++` at line 171, so the cursor and the log would stay as they were. `Bind` never produces that outcome, because these fields are not in the model.
- Strings are sequences of Unicode scalar values, while Java's `length`, `indexOf` and `substring` count UTF-16 code units. The model therefore agrees with the source only on durations without supplementary characters. The ASCII durations YouTube reports are such durations.
- A `null` listener is modelled as the flag `hasListener`.
- `counter` is a static field in the source, so it is shared by every adapter instance. The model gives each adapter object its own cursor. Its constructor takes the value the shared field holds when the adapter is created.
- `split("M")` takes a regular expression. The model treats it as a split at the literal character `M`, which the one-letter pattern `M` means.
- `Adapter.ItemCount` does not model the 32-bit wrap-around of `size() + 2` at line 180. It would need a list of at least 2147483646 videos, far beyond any playlist.
- `Adapter.Run`: after a `Thrown` outcome it goes on binding the remaining slots from the unchanged state. In the source the exception propagates out of `onBindViewHolder` (lines 110 and 152) and ends the layout pass, so no further bind follows.
- `Adapter.Step`, `Adapter.Run` and the lemmas about them take the duration formatter as a parameter. `Bind` ties them to `ParseDuration`.
