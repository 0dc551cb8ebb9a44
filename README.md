# AP News scraping robot: a verified model of its core

The robot opens a news-search site, searches for a term, applies sort and
category filters, scrapes the result list into article records, and writes
them to a worksheet. This project models the parts of `tasks.py` whose
behaviour can be stated exactly, and proves properties of them.

- **TextSignals** (`text_signals.dfy`): the two derived fields of an article.
  `search_count` is Python's `str.count` on the lower-cased title plus the
  same on the lower-cased description. `contains_money` is the regular
  expression `\$\d+(?:,\d+)*(?:\.\d+)?|\d+ dollars|\d+ USD` searched in
  `title + description`. The regex is written out as a grammar over the
  matched text. It is proved equivalent to a three-way test: `$` then a
  digit, a digit then ` dollars`, or a digit then ` USD`.
- **Extraction** (`extraction.dfy`): the per-element loop of
  `extract_news_data`. The rendered list is an input sequence. For each
  element it gives either the value of each field lookup or the fact that
  the lookup raised.
- **Resilience** (`resilience.dfy`): the click escalation ladder
  `ensure_clickable_and_click`, and the search-field retry loop in `main`.
  An oracle sequence gives the outcome of each browser call. The actions
  taken, including remediations and sleeps, come back as a trace.
- **Filters** (`filters.dfy`): the sort and category catalogs, the XPath
  selectors built from them, and the attempts `apply_filters` makes.
- **Persistence** (`persistence.dfy`): the rows `save_news_to_excel`
  appends. A read-back function decodes them again.
- **Wrappers** (`wrappers.dfy`): `Option`, standing for Python's `None`.

Assumptions: case folding is ASCII only, and `\d` means an ASCII digit.

Behaviour of the code that the model keeps as written:

- The click ladder returns nothing. A caller cannot tell whether the click
  happened. Success can be read only from the trace.
- The search loop counts an attempt only when an exception is raised. A
  lookup that returns `None` without raising makes the loop spin with no
  bound.
- After the search loop, the run aborts only if `search_field` is `None`.
  That value comes from the last lookup that did not raise. A field that
  was found but never typed into lets the run continue.

## Model

| member | source | states |
|---|---|---|
| `TextSignals.Lower` | tasks.py:175-176 | `str.lower()` on ASCII: each upper-case ASCII letter is lowered, every other character is kept, and the length is preserved |
| `TextSignals.Count` | tasks.py:175-176 | Python's `str.count`: for a non-empty term, scan left to right, count a match and resume right after it, otherwise move one character on; an empty term counts the text's length plus 1 |
| `TextSignals.CountBound` | tasks.py:175-176 | a non-empty term occurs in a text at most as often as it fits into it: count times term length is at most text length |
| `TextSignals.CountIsLeftToRightScan` | tasks.py:175-176 | `str.count` counts the matches of a left-to-right scan: each is an occurrence, consecutive matches do not overlap, and every occurrence starts inside a counted match |
| `TextSignals.CountIsNonOverlapping` | tasks.py:175-176 | overlapping occurrences count once: `"aaa".count("aa") == 1` |
| `TextSignals.SearchCount` | tasks.py:175-176 | an empty term counts the combined length of title and description plus 2, since Python counts `len + 1` empty matches in each text |
| `TextSignals.SearchCountBound` | tasks.py:175-176 | for a non-empty term, `search_count` times the term's length is at most the combined length of title and description, so the count is at most that length divided (rounding down) by the term's length |
| `TextSignals.SearchCountExample` | tasks.py:175-176 | title `Cats and cats`, description `no cats here` and term `cat` give a `search_count` of 3: two matches in the title, whatever their case, and one in the description |
| `TextSignals.SearchCountIgnoresCase` | tasks.py:175-176 | changing the case of the title, the description or the term leaves `search_count` unchanged |
| `TextSignals.SearchCountSplitsFields` | tasks.py:175-176 | title and description are counted separately: an occurrence across their boundary is not counted, though it is one in `title + description` |
| `TextSignals.ContainsMoney` | tasks.py:179 | some position of the text holds `$` followed by a digit, or a digit followed by ` dollars` or ` USD` |
| `TextSignals.MoneyPattern` | tasks.py:179 | the whole text matches one alternative of the regex: `$` then digit groups separated by commas with an optional decimal part, or digits then ` dollars`, or digits then ` USD` |
| `TextSignals.PatternFound` | tasks.py:179 | what `re.search` decides for that regex: some substring of the text matches it |
| `TextSignals.ContainsMoneyMatchesPattern` | tasks.py:179 | the regex is found in a text exactly when the text has `$` followed by a digit, or a digit followed by ` dollars` or ` USD`; comma groups and cents never decide it |
| `TextSignals.ContainsMoneyExamples` | tasks.py:179 | `$1,250.50`, `500 dollars` and `20 USD` are money mentions; `5 usd` is not (the match is case-sensitive) |
| `Extraction.Classify` | tasks.py:167-188 | the record of a readable element: the title, date, description and image values read, `search_count` of title and description, and `contains_money` of `title + description` |
| `Extraction.Extract` | tasks.py:165-192 | the records for the elements in display order: one per element whose four lookups succeed, none for an element with a raising lookup |
| `Extraction.ExtractNewsData` | tasks.py:158-192 | the loop returns exactly `Extract(elements, term)`: one classified record per readable element, in display order |
| `Extraction.ExtractIsOrderedFilter` | tasks.py:165-192 | the k-th record is built from the k-th readable element, with exactly the title, date, description and image values read; kept indices increase; an element is kept exactly when all its lookups succeed, so neither `search_count` nor `contains_money` decides it |
| `Extraction.ExtractLength` | tasks.py:165-192 | there are never more records than elements, and there are as many exactly when every element is readable |
| `Extraction.NoElementsNoRecords` | tasks.py:161-165 | an empty result list yields no records |
| `Extraction.ExtractAppend` | tasks.py:165-190 | extracting a concatenation gives the concatenation of the two extractions, so each element is handled on its own |
| `Extraction.UnreadableIsIsolated` | tasks.py:166-190 | an element with a raising lookup is dropped, and its siblings are extracted as if it were absent |
| `Extraction.KeepingIgnoresSignals` | tasks.py:174-188 | the term, and hence `search_count`, decides neither which elements are kept nor the four copied fields of their records |
| `Resilience.ClickScript` | tasks.py:43-45 | the script `click_with_javascript` runs: `querySelector` on the locator as given, then `click()` |
| `Resilience.RemedyFor` | tasks.py:68-75 | after failed attempt `attempts`, the remediation chosen is entry `attempts` of the ladder: cookie banner, wait-and-click, JavaScript click, Escape |
| `Resilience.FirstSuccessFrom` | tasks.py:59-64 | gives the first index at or after `j` whose direct click succeeds, or 4: every click before it fails |
| `Resilience.Escalation` | tasks.py:57-81 | the ladder's whole trace: k failed rounds (direct click, the k-th remediation, a 2-second sleep) up to the first successful click, then that click; four failed rounds when none succeeds |
| `Resilience.EnsureClickableAndClick` | tasks.py:57-81 | the ladder's trace is `Escalation`. With k failures before the first success, it makes k+1 direct clicks, or 4 if none succeeds. It runs the first k remediations in ladder order and sleeps 2 seconds k times |
| `Resilience.EscalationShape` | tasks.py:57-81 | at most 4 direct clicks. When a click succeeds it is the last action. Remediations are a prefix of the ladder, and there is one 2-second sleep per failure |
| `Resilience.FourthClickSucceeds` | tasks.py:57-81 | a target that yields only to the fourth click gets 4 clicks, 3 remediations and three 2-second sleeps |
| `Resilience.Iterate` | tasks.py:100-114 | one iteration: a raising lookup or interaction counts an attempt and sleeps; a `None` lookup empties `search_field` without counting; a found field is used and the loop breaks |
| `Resilience.SearchLoop` | tasks.py:100-114 | the loop repeats iterations until the `break` or until 5 attempts have been counted, or until the given outcomes run out |
| `Resilience.Verdict` | tasks.py:116-117 | after the loop, the run aborts exactly when `search_field` is `None`; a submitted search, or a field found but never used, goes on |
| `Resilience.AcquireSearchField` | tasks.py:98-117 | the loop's final state is `SearchLoop(steps, SearchStart)`. `attempts` equals the number of raising iterations, is at most 5, and equals the number of sleeps. The field is held exactly when the last non-raising lookup found it. The run aborts exactly when the loop exits with no such lookup |
| `Resilience.NoneLookupsNeverExit` | tasks.py:100-114 | lookups that keep returning `None` never count an attempt. The loop never exits, however many iterations it is given |
| `Resilience.FiveRaisingLookupsAbort` | tasks.py:111-117 | five raising lookups exhaust the budget and the run aborts |
| `Resilience.FoundFieldNeverAborts` | tasks.py:102-117 | a field found five times whose interaction raises each time exhausts the budget, yet the run does not abort |
| `Resilience.StaleFieldAvertsAbort` | tasks.py:102-117 | a field found once and then four raising lookups: the stale field still averts the abort |
| `Filters.SortSelector` | tasks.py:137 | the XPath of the `<option>` of the `s` select whose `value` is the given one |
| `Filters.CheckboxSelector` | tasks.py:148 | the XPath of the `<input>` whose `value` is the given one |
| `Filters.SortSelectors` | tasks.py:135-137 | one selector for a sort label in the catalog, naming its mapped value; none for any other label |
| `Filters.CategorySelectors` | tasks.py:145-148 | one checkbox selector per known category name, in the order given; unknown names are skipped |
| `Filters.ApplyFilters` | tasks.py:134-154 | the attempts made: the sort selector, then the category selectors, each with the outcome of its own wait-and-click |
| `Filters.SelectorRoundTrip` | tasks.py:137 | a selector built as prefix, value, `']` names exactly that value |
| `Filters.CatalogSelectorsDistinct` | tasks.py:16-26 | distinct labels of either catalog lead to distinct selectors |
| `Filters.SortFilterChoice` | tasks.py:135-137 | a sort option is tried exactly when the label is a key of `sort_options`, with the selector for its mapped value |
| `Filters.CategorySelectorsAppend` | tasks.py:145-148 | categories are handled in input order, each independently of the others |
| `Filters.CategorySelectorsCount` | tasks.py:145-148 | at most one checkbox per category. Each checkbox belongs to a known category's catalog value. Only unknown names means no checkbox is tried |
| `Filters.FiltersFailIndependently` | tasks.py:139-154 | when click outcomes differ only for one selector, the same selectors are tried in the same order and every attempt on another selector turns out the same: a failing filter does not affect the others |
| `Persistence.WritesRecords` | tasks.py:196-214 | what is written for a record list: nothing when it is empty, otherwise the header row then one row per record in order |
| `Persistence.RowOf` | tasks.py:213 | each record's row has the header's six columns |
| `Persistence.SaveNewsToExcel` | tasks.py:196-214 | an empty list writes no rows. Otherwise it writes the header, then one row per record in order: N+1 rows |
| `Persistence.SheetRoundTrip` | tasks.py:209-214 | reading back the written rows gives the records again; there are 0 rows for no records, else N+1 |
| `Persistence.WrittenRowsForElements` | tasks.py:121-123 | from result list to worksheet: at most one row per element plus the header, nothing when no element is readable, and the rows read back as the extracted records |

## Left out

- The browser driver, the workbook library and the work-item library are foreign code. Oracle inputs stand in for what they return, and traces or result values for what is done to them.
- Real time is not modelled: `time.sleep(2)` appears as a `Sleep(2)` action or a sleep count, and wait timeouts (15 s, 10 s) are not modelled.
- The outcomes of the remediation helpers (`close_cookies_banner`, `wait_for_clickable_and_click`, `click_with_javascript`, `press_escape_key`) are not modelled. Each swallows its own exception and none affects the ladder. In particular, a remediation that itself clicks the element does not stop the ladder. The JavaScript remediation passes the Selenium-style locator (e.g. `css:.icon-magnify > use`) to `querySelector`, and the model records the script it builds.
- `main` as a whole is not modelled. It loads parameters, opens the browser, sets the window size and then calls the modelled steps. Two defects in it are noted here and not repaired. `close_all_browsers` runs only on the normal path, because there is no `finally` (tasks.py:117, tasks.py:125). `extract_news_data` is declared with `(browser, search_term)` but called with one argument (tasks.py:121 against tasks.py:158), which raises a `TypeError` in Python. Extraction is modelled as a function of the elements and the term.
- `load_work_item` is not modelled: the search term, sort label and category list are parameters. A category selection that is a single string would be iterated character by character in Python; the model takes a sequence of names.
- The final `wait_until_element_is_not_visible` for the loading spinner in `apply_filters` (tasks.py:156) is not modelled. It is not inside a `try`, so its timeout would propagate.
- `Filters.ApplyFilters`: whether a wait-then-click succeeds is an oracle keyed by selector, so two attempts on the same selector (a category listed twice) get the same outcome.
- Creating the `output` directory, creating and saving the workbook, and the error handling around saving are file I/O (tasks.py:201-207, tasks.py:216-219).
- Logging (`print`) is not modelled.
- Unicode case folding of `str.lower` and Unicode digits of `\d` are not modelled: only ASCII letters are folded and only ASCII digits count.
