# Show Finder core, modelled in Dafny

Show Finder collects Instagram posts from venue accounts and decides which
posts announce a live show. For each show post it pulls a date, a location
and a time out of the caption. When the caption lacks a date or a location,
it also reads the text that OCR recognises in the post image. The resulting
show records are laid out on a month calendar, at most three per day. A
small store of saved profile links, each with a nickname, supplies the
accounts to scrape and the names shown on the calendar.

This project models that core as pure Dafny functions and proves properties
of it:

- `TextParser` (text_parser.py): show classification, date, location and
  time extraction, and the caption summary.
- `OcrExtractor` (ocr_extractor.py): what is done with recognised image text.
- `ShowProcessor` (show_processor.py): one post becomes at most one show
  record; the whole list is processed in order.
- `LinksManager` (links_manager.py): username extraction and the saved-link
  operations add, update, delete and look-up.
- `CalendarUi` (calendar_ui.py): month navigation, per-day show lookup, the
  6×7 day grid and the cell text with its three-show cap.
- Support modules:
  - `Options`: the Option type.
  - `Strings`: the Python string built-ins the code uses.
  - `Dates`: the proleptic Gregorian calendar, timestamps and `%Y-%m-%d`.
  - `PrioritySearch`: "first pattern, first match that passes".
  - `Lists`: the filter and filter-map loop shapes.

Foreign code is represented by parameters:

- A regular-expression engine is a `Finder`: it gives the matches of a
  pattern in a text, in order.
- `dateutil.parser.parse` is a `DateParser`. Its failure is `None`.
- Tesseract is an `OcrEngine` from an image path to the recognised text.
  `None` stands for every failure.

Timestamps are whole seconds since 0001-01-01 00:00.

Points of the code's behaviour that are easy to misread:

- **Time backfill.** The image's time is taken when the caption has none
  and the image is read (show_processor.py:82-83).
  `ShowProcessor.ImageSuppliesMissingTime` states this.
- **When the image is read.** The image is read only when the date or the
  location is missing (show_processor.py:69), never for a missing time
  alone. `ShowProcessor.ImageIgnoredUnlessNeeded` states this.
- **Every date pattern is tried.** All six date patterns are tried. Every
  match of each pattern goes to the date parser in order, including the
  relative words of the fifth pattern.
- **The "7 days" window.** The window is computed on whole days of a
  difference (`.days <= 7`). A date counts as recent when it is less than
  eight days before the post (`TextParser.WindowIsEightDays`).

## Model

| member | source | states |
|---|---|---|
| TextParser.CountIsDistinctPresent | text_parser.py:58 | the keyword count equals the number of distinct show keywords that occur in the lower-cased text |
| TextParser.IsShowPost | text_parser.py:42-68 | empty text is never a show; two or more distinct keywords make a show; otherwise a show iff some date pattern matches and an event word occurs |
| TextParser.TwoKeywordsSuffice | text_parser.py:58-62 | any two different show keywords in the text make it a show post |
| TextParser.WindowIsEightDays | text_parser.py:94-98 | the acceptance test (at or after the post's midnight, or at most 7 whole days earlier) holds iff the date is less than 8 days before the post |
| TextParser.WindowInWholeDays | text_parser.py:96-98 | a date exactly k days before the post is accepted iff k <= 7 |
| TextParser.PatternStageDate | text_parser.py:84-100 | a date is found iff some match of some pattern parses into the window; the result is in the window and is the first such match, patterns first, then matches |
| PrioritySearch.FirstSomeAcross | text_parser.py:85-87 | the nested pattern/match loop returns the lexicographically first accepted hit, and finds one iff any exists |
| TextParser.RelativeDate | text_parser.py:102-110 | "tonight" or "today" gives 20:00 of the post day, otherwise "tomorrow" gives 20:00 of the next day, otherwise nothing |
| TextParser.ExtractDate | text_parser.py:70-110 | empty text gives nothing; a pattern date wins over the relative words; the relative words are used only when no pattern date is accepted |
| TextParser.ExtractDateLowerBound | text_parser.py:93-108 | any extracted date is less than 8 days before the post |
| TextParser.ExtractLocation | text_parser.py:112-139 | empty text gives nothing; a result is stripped and 3 to 99 characters long; it is the first plausible group over the three patterns in order, and there is one iff some group is plausible |
| TextParser.ExtractTime | text_parser.py:141-159 | empty text gives nothing; a time is found iff some time pattern matches; it is the stripped first match of the first pattern that matches |
| TextParser.FormatDate | text_parser.py:186-187 | a date is rendered iff one was extracted; the string is exactly the `%Y-%m-%d` rendering of the extracted instant's day (canonical, so the calendar's string comparison finds it), reads back as that date and is never "Unknown" |
| TextParser.ParseShowInfo | text_parser.py:161-192 | is_show is the classification; a non-show has no fields; a show has the extracted date, location and time |
| TextParser.FieldsDateReadable | text_parser.py:185-187 | any date field is non-empty, is the canonical `%Y-%m-%d` rendering of a calendar date and differs from "Unknown" |
| Dates.DateStringRoundTrip | text_parser.py:187 | reading a `%Y-%m-%d` rendering gives back the date |
| Dates.DateStringCanonical | text_parser.py:187 | every `%Y-%m-%d` rendering is in canonical form and names its date |
| Dates.DateStringInjective | text_parser.py:187 | distinct dates render to distinct strings |
| Dates.Midnight | text_parser.py:94 | the post's midnight is on the same day, at or before the post, less than a day earlier |
| Dates.AtHour | text_parser.py:105 | the same day at the given hour exactly |
| Strings.Strip | text_parser.py:135 | the result has no surrounding whitespace and is the input minus whitespace at its ends |
| OcrExtractor.RecoveredText | ocr_extractor.py:62 | text is recovered iff the raw text is non-empty, and it is the stripped raw text |
| OcrExtractor.ExtractShowInfoFromImage | ocr_extractor.py:68-102 | no usable text gives no fields; otherwise the caption extractors apply to the text without a show-classification gate |
| OcrExtractor.BlankImageTextYieldsNothing | ocr_extractor.py:87-90 | whitespace-only image text gives no fields |
| OcrExtractor.ImageDateReadable | ocr_extractor.py:95-97 | an image date is the canonical `%Y-%m-%d` rendering of a calendar date and is not "Unknown" |
| OcrExtractor.ImageDateIsRecent | ocr_extractor.py:95-97 | an image date is the `%Y-%m-%d` rendering of the day of an instant less than 8 days before the post |
| ShowProcessor.DisplayName | show_processor.py:53-56 | the nickname when the username has one, otherwise the username |
| ShowProcessor.OrUnknown | show_processor.py:64-65 | a non-empty value is kept; None or empty becomes "Unknown" |
| ShowProcessor.FillMissing | show_processor.py:75-83 | a known field is never overwritten; a missing field takes a non-empty image value; any change is the image's value |
| ShowProcessor.Assemble | show_processor.py:58-91 | a kept record knows a date or a location and carries the post's fields and display name; each of date, location and time is the caption's when the caption has it, else the image's when the image is consulted and has it, else "Unknown" |
| ShowProcessor.ImageIgnoredUnlessNeeded | show_processor.py:69 | when the caption has a date and a location, or there is no image, the image's fields do not matter |
| ShowProcessor.CaptionDateKeepsRecord | show_processor.py:76-91 | a caption date is kept and so is the record |
| ShowProcessor.CaptionLocationKeepsRecord | show_processor.py:79-91 | a caption location is kept and so is the record |
| ShowProcessor.ImageSuppliesMissingDate | show_processor.py:69-91 | a missing caption date is taken from the image and the record is kept |
| ShowProcessor.ImageSuppliesMissingLocation | show_processor.py:69-91 | a missing caption location is taken from the image of a post that has one, and the record is kept unless that location reads "Unknown" |
| ShowProcessor.VenueFromImage | show_processor.py:58-91 | a caption dated 2024-05-01 without a location, with an image dated 2024-05-02 naming "The Venue", gives a record with the caption's date, the image's venue and time "Unknown" |
| ShowProcessor.ImageSuppliesMissingTime | show_processor.py:82-83 | when the image is consulted, a missing caption time is taken from it |
| ShowProcessor.DroppedIffNothingKnown | show_processor.py:86-91 | a post is dropped exactly when, after filling, neither date nor location is known |
| ShowProcessor.ImageFields | show_processor.py:69-73 | no image path gives no fields; otherwise the OCR extraction for the post's image and timestamp |
| ShowProcessor.ProcessPost | show_processor.py:42-91 | a non-show gives no record; a show post's record is the merge of its caption's fields with its image's fields, so every merge property holds of it; a record knows a date or a location and has the post's username and display name |
| ShowProcessor.ProcessedDateReadable | show_processor.py:63-87 | a record's date is "Unknown" or the canonical `%Y-%m-%d` rendering of a calendar date |
| ShowProcessor.CaptionDateKeepsPost | show_processor.py:44-91 | a show post whose caption yields a date always gives a record with that date |
| ShowProcessor.OcrIgnoredUnlessNeeded | show_processor.py:69-73 | when the image is not needed, the OCR engine cannot change the result |
| ShowProcessor.ProcessPosts | show_processor.py:40-100 | at most one record per post; every record is a post's record and knows a date or a location |
| ShowProcessor.ProcessPostsAppend | show_processor.py:42-91 | processing is per post and in order: a concatenation processes to the concatenation |
| ShowProcessor.ProcessPostsComplete | show_processor.py:89-91 | every post that yields a record contributes it |
| LinksManager.HostSearchFrom | links_manager.py:32-33 | `instagram\.com/([^/?]+)` matches iff the host is followed by a non-separator; the group is the maximal run at the leftmost match |
| LinksManager.BareMatch | links_manager.py:34 | the whole-string pattern matches iff the string is a handle, or a handle followed by one final newline; the group is the handle without that newline |
| LinksManager.ValidUsernameIsHandle | links_manager.py:43 | a name that passes the final check consists of letters, digits, dots and underscores |
| LinksManager.ExtractUsername | links_manager.py:17-46 | a username is found iff some pattern's cleaned group passes the check; it is valid, and is the first pattern's such group |
| LinksManager.NoHostWithoutSlash | links_manager.py:32-33 | text without a slash never matches the URL patterns |
| LinksManager.UsernameExtractsToItself | links_manager.py:34-44 | a valid bare username extracts to itself |
| LinksManager.AtHandleExtracts | links_manager.py:28 | "@name" extracts to name |
| LinksManager.CleanedUsernameExtracts | links_manager.py:28-44 | any link that cleans to a valid username extracts to it |
| LinksManager.ExtractUsernameIdempotent | links_manager.py:17-46 | extracting from an extracted username gives the same username |
| LinksManager.ProfileUrlExtracts | links_manager.py:31-44 | `https://www.instagram.com/<u>/` extracts to u |
| LinksManager.FindSaved | links_manager.py:82-84 | the index of the first link saved under the username; none iff no link is |
| LinksManager.StoredNickname | links_manager.py:89 | the stripped nickname, or the username when that is empty |
| LinksManager.AddUsername | links_manager.py:81-92 | adding succeeds iff the username is not saved; a failure leaves the list and gives the "already saved" message; success appends exactly one link |
| LinksManager.AddLink | links_manager.py:66-92 | an unrecognised link fails with the invalid-link message; otherwise it adds under the extracted username; a failure never changes the list |
| LinksManager.AddKeepsUnique | links_manager.py:81-90 | adding keeps saved usernames distinct |
| LinksManager.AddThenLookUp | links_manager.py:86-92 | after a successful add, the username is listed and looks up to the stored nickname |
| LinksManager.AddThenDelete | links_manager.py:122-123 | deleting the username just added restores the previous list |
| LinksManager.UpdateLink | links_manager.py:94-110 | the result is true iff the username is saved; only the first such link's nickname changes; usernames and links are kept |
| LinksManager.UpdateThenLookUp | links_manager.py:105-107 | after an update, look-up gives the new stored nickname |
| LinksManager.UpdateKeepsUnique | links_manager.py:105-107 | updating keeps saved usernames distinct |
| LinksManager.DeleteLink | links_manager.py:112-127 | the kept list is the original with every record saved under the username removed, the rest in their order and with their multiplicity; true iff one was removed; otherwise nothing changes |
| LinksManager.DeleteLinkAppend | links_manager.py:123 | deleting from a list in two parts deletes from each part, so the kept records stay in order |
| LinksManager.DeleteThenLookUp | links_manager.py:122-146 | after a delete the username is not listed, looks up to itself, and a second delete reports false |
| LinksManager.GetNickname | links_manager.py:133-146 | the first saved link's nickname (the username when it has none); the username when none is saved |
| LinksManager.GetAllUsernames | links_manager.py:129-131 | only non-empty saved usernames; each is listed as many times as records are saved under it, so at most once per record |
| LinksManager.GetAllUsernamesAppend | links_manager.py:131 | the usernames of a list in two parts are those of each part in turn, so the list follows the records' order |
| LinksManager.UniqueUsernamesListedOnce | links_manager.py:129-131 | while saved usernames are distinct, as adding keeps them, no username is listed twice |
| LinksManager.SavedUsernameListed | links_manager.py:129-131 | every non-empty saved username is listed |
| CalendarUi.NextMonth | calendar_ui.py:204-210 | the next month is valid and one month later |
| CalendarUi.PrevMonth | calendar_ui.py:196-202 | the previous month is valid and one month earlier; only January of year 1 has none |
| CalendarUi.NavigationRoundTrip | calendar_ui.py:196-210 | next then previous, and previous then next, return to the month |
| CalendarUi.NextMonthAsWritten | calendar_ui.py:204-210 | keeping the day while changing the month fails iff the day does not exist in the next month |
| CalendarUi.PrevMonthAsWritten | calendar_ui.py:196-202 | keeping the day fails iff there is no previous month or the day does not exist in it |
| CalendarUi.NextMonthFailsOnJanuary31 | calendar_ui.py:209 | from 31 January 2025 the next-month step fails |
| CalendarUi.PrevMonthFailsOnMarch31 | calendar_ui.py:201 | from 31 March 2025 the previous-month step fails |
| CalendarUi.AsWrittenAgreesWhenItSucceeds | calendar_ui.py:196-210 | when the original step succeeds it lands in the corrected month; for days up to 28 it always succeeds |
| CalendarUi.FillGrid | calendar_ui.py:254-264 | cell k of the 42 holds day k - first weekday + 1 when that is a day of the month, and is blank otherwise |
| CalendarUi.FirstWeekday | calendar_ui.py:241-242 | the column of the 1st is a weekday index below 7 |
| CalendarUi.DayPlacement | calendar_ui.py:241-267 | every day of the month lands in one of the 42 cells, in the column of its weekday |
| CalendarUi.ShowsForDate | calendar_ui.py:217-220 | exactly the shows whose date string is the day's `%Y-%m-%d`, each as many times as it is stored |
| CalendarUi.ShownOnItsDay | calendar_ui.py:217-220 | a show whose date is a canonical date string is listed on the day it names |
| CalendarUi.ProcessedShowOnCalendar | calendar_ui.py:217-220 | every processed record with a known date is listed on the calendar day of that date |
| CalendarUi.UnknownDateNeverShown | calendar_ui.py:217-220 | a show dated "Unknown" is on no day |
| CalendarUi.ShownOnOneDayOnly | calendar_ui.py:217-220 | a show appears on at most one day |
| CalendarUi.ShowsForDateAppend | calendar_ui.py:217-220 | the lookup keeps the shows' order |
| CalendarUi.ShowLabel | calendar_ui.py:286-289 | "• " then the first 18 characters of the name; " @ " and the first 5 characters of the time iff the time is known |
| CalendarUi.CellLabels | calendar_ui.py:284-325 | at most 3 show lines, in order, then "+N more" for the N hidden shows |
| CalendarUi.CellAccountsForEveryShow | calendar_ui.py:317-325 | the shown lines plus the announced count equal the number of shows |
| CalendarUi.RenderMonth | calendar_ui.py:234-327 | 42 cells; day d is at first weekday + d - 1 with that day's capped show lines; all other cells are empty |

## Left out

- main.py, links_ui.py and instagram_scraper.py are not part of this model. They hold the window layout, the dialogs and the scraping, whose posts become the `posts` parameter of `ShowProcessor.ProcessPosts`.
- Regular expressions are not evaluated. `Finder` stands for `re.finditer`, except in username extraction, whose three patterns are simple enough to model exactly.
- `dateutil.parser.parse` is the `DateParser` parameter, with its exceptions as `None`. `ShowProcessor.Services` carries it together with the `Finder` and the `OcrEngine`.
- Locating Tesseract, opening and converting the image, and its exceptions are all behind `OcrEngine`.
- The JSON file of saved links, its loading and saving, and deleting the temporary image files are file I/O.
- Widgets, colours, fonts, hover effects, the today highlight, the month title (`strftime('%B %Y')`), `on_show_click` and `go_to_today` are presentation, or depend on the clock.
- Microseconds are not modelled, and neither is `datetime`'s year limit of 9999.
- Strings.ToLower: folds ASCII letters only, not the full Unicode `str.lower`.
- LinksManager.ExtractUsername: the final check accepts ASCII letters and digits only. Python's `isalnum` also accepts non-ASCII letters and digits, which the URL patterns can capture. The `$` anchor accepting a final newline is modelled.
- LinksManager.ValidUsername: ASCII letters and digits only, for the same reason.
- LinksManager.GetNickname: a nickname stored as JSON `null` is treated as absent, so look-up gives the username where Python returns `None`.
- ShowProcessor.Assemble: a caption location that is literally "Unknown" counts as missing, as the code's comparison with "Unknown" does.

## Findings

| source | as written | input that shows it | evidently intended | confidence | as-written member | corrected member |
|---|---|---|---|---|---|---|
| calendar_ui.py:204-210 | `next_month` keeps the current day and changes only the month, so `replace` raises ValueError when that day does not exist in the next month | the calendar shows a date of 31 January 2025 (`go_to_today` on that day) and the user presses next | move to the next month whatever the current day is | high, not executed | CalendarUi.NextMonthFailsOnJanuary31 | CalendarUi.NextMonth |
| calendar_ui.py:196-202 | `prev_month` keeps the current day likewise and raises for a day missing from the previous month | current date 31 March 2025, previous pressed (February has no 31st) | move to the previous month whatever the current day is | high, not executed | CalendarUi.PrevMonthFailsOnMarch31 | CalendarUi.PrevMonth |

The original steps are modelled as `CalendarUi.NextMonthAsWritten` and
`CalendarUi.PrevMonthAsWritten`, with failure as `None`. The corrected steps
move between months, which have no day. `CalendarUi.NavigationRoundTrip`
proves that they are inverse to each other. `CalendarUi.RenderMonth` renders
the year-month pair they navigate.
