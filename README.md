# Bill tracker scraper: summaries and bill records

A Dafny model of the extraction core of a small web service that lists bills
from the PRS India bill tracker (`https://prsindia.org/billtrack`). Two pieces
of `main.py` are modelled:

- `extract_content(url)` turns the outcome of fetching one bill's detail page
  into a summary string. An exception gives `"Error fetching content: "` and
  the message. A status other than 200 gives `"Failed to retrieve page. Status
  code: "` and the code. A page without a `div.body_content` gives
  `"Content not found."`. Otherwise the result is the region's first 50
  whitespace-separated words, joined by single spaces, followed by `"..."`.
  The `"..."` is added even when nothing was cut off.
- The record-building loop of `get_bills` goes over the first 50 `views-row`
  blocks, numbered from 1. It skips blocks without a title container. For
  every other block it appends `{index, title, link, status, summary}`, with
  `"N/A"` for each missing field. It calls the summarizer only when the block
  has a non-empty link. An anchor without `href` raises `KeyError('href')`,
  and the endpoint then answers only `"An error occurred: 'href'"`.

The network and the HTML parser are not modelled. Their results are inputs:

- `Summary.FetchOutcome` is what a detail-page fetch produced: a status code
  and the `body_content` region's text, or an exception message.
- `Bills.Block` and `Bills.TitleDiv` are the parts of one `views-row` the loop
  reads: the title container, its `h3` text, its anchor and the anchor's
  `href`, and the status text.
- The summarizer is a parameter `summarize: string -> string` of the loop. It
  is total because `extract_content` catches every exception.
  `Bills.ExtractContentOver(fetch)` is the summarizer the service uses:
  `extract_content` over a network that answers `fetch(url)`.

Files:

- `py_builtins.dfy` holds the Python built-ins the code relies on:
  `str.split()` with no argument, `" ".join`, the slice `xs[:n]`, and `str()`
  of an `int`.
- `summary.dfy` models `extract_content`.
- `bills.dfy` models the loop. `GetBills` is the loop as an imperative method
  with `continue` and an early return. `ExtractBills` is its reference
  definition, one block at a time, and the lemmas state the properties of that
  definition.

Three consequences of the code that are easy to miss:

- A record's index is its block's 1-based position among the first 50
  blocks. `enumerate(bill_rows[:50], start=1)` counts before the `continue`,
  so a skipped block leaves a gap in the indices
  (`Bills.SkippedBlockKeepsItsIndex`).
- A link is `"N/A"` only when the title container has no anchor or the
  anchor's `href` is empty. An anchor with no `href` attribute at all raises
  `KeyError('href')`, and the whole request fails
  (`Bills.BillsFailOnlyOnMissingHref`).
- The region text comes from `get_text(strip=True)`, which belongs to the
  parser library and is taken as given. Only `split()` and `" ".join` are
  applied to it in the model. Any whitespace inside it is therefore handled
  by `split()`.

## Model

| member | source | states |
|---|---|---|
| `PyBuiltins.Split` | main.py:38 | every piece `content.split()` returns is non-empty and contains no whitespace |
| `PyBuiltins.SplitSkipsSpace` | main.py:38 | leading whitespace of any length produces no piece |
| `PyBuiltins.SplitWord` | main.py:38 | a word followed by whitespace or by the end of the text is the first piece |
| `PyBuiltins.SplitJoin` | main.py:38 | splitting `" ".join(ws)` gives `ws` back whenever every element of `ws` is a word |
| `PyBuiltins.SplitKeepsText` | main.py:38 | the pieces, laid end to end, are exactly the non-whitespace characters of the text, in order |
| `PyBuiltins.Take` | main.py:73 | `xs[:n]` has length min(n, len(xs)) and agrees with `xs` position by position |
| `PyBuiltins.NatText` | main.py:41 | `str(n)` for n >= 0 is at least one decimal digit, with no leading zero |
| `PyBuiltins.IntText` | main.py:41 | `str(i)` starts with a minus sign exactly when i is negative |
| `PyBuiltins.IntTextRoundTrip` | main.py:41 | the decimal text of a status code reads back as the same integer |
| `Summary.WordLimitSummary` | main.py:37-39 | the summary ends in "..."; the text before it splits into exactly the first min(50, #words) words of the region, and is those words joined by single spaces |
| `Summary.ExceptionIsReported` | main.py:42-43 | an exception gives "Error fetching content: " followed by its message, unchanged |
| `Summary.StatusIsReported` | main.py:41 | a status other than 200 gives "Failed to retrieve page. Status code: " followed by exactly `str(status)`: canonical decimal text that parses back to that status |
| `Summary.ServiceUnavailableExample` | main.py:41 | a 503 gives exactly "Failed to retrieve page. Status code: 503" |
| `Summary.MissingRegionIsReported` | main.py:35-40 | a 200 page without a `body_content` region gives exactly "Content not found." |
| `Summary.RegionIsSummarized` | main.py:36-39 | a 200 page with a region gives min(50, #words) words, each the region's word at the same position and each non-empty and whitespace-free, single spaced, then "..." |
| `Summary.ShortRegionKeepsEveryWord` | main.py:38 | with at most 50 words, every word is kept and "..." is still appended |
| `Summary.SummaryKeepsText` | main.py:37-38 | with at most 50 words, the kept words carry every non-whitespace character of the region, in order |
| `Summary.SplitThreeWords` | main.py:38 | three words separated by any non-empty whitespace split into exactly those three words |
| `Summary.ThreeWordRegion` | main.py:38 | a three-word region gives the three words joined by single spaces plus "..." |
| `Bills.GetBills` | main.py:70-92 | the imperative loop (enumerate from 1, `continue` on a missing title container, append, abort on a missing `href`) returns exactly the reference outcome `ExtractBills` |
| `Bills.AbsoluteLinkIsNotSentinel` | main.py:82-84 | an absolute link is never equal to "N/A", so the summarizer runs exactly for blocks with a non-empty `href` |
| `Bills.FailureIsFinal` | main.py:96-97 | once a block has raised, the request's answer is the error whatever the later blocks are |
| `Bills.RowStepCases` | main.py:74-84 | a block without a title container is skipped; a missing `href` raises; any other block gives the record with heading or "N/A", absolute link or "N/A", status or "N/A", and a summary exactly when there is a link |
| `Bills.AssembleFails` | main.py:81 | the loop fails after k blocks exactly when one of them lacks its `href`, and only with the `KeyError` message |
| `Bills.TitledPositions` | main.py:73-78 | the 1-based positions of the titled blocks among the first k: at most k of them, each within 1..k |
| `Bills.TitledPositionsIncrease` | main.py:73 | the titled positions strictly increase |
| `Bills.TitledPositionsCover` | main.py:73-78 | every titled block among the first k has its position in the list |
| `Bills.AssembleIndices` | main.py:73-92 | after k blocks without failure, the records' indices are exactly the titled positions, in order |
| `Bills.AssembleDescribes` | main.py:80-92 | after k blocks without failure, each record describes the titled block at its index, field by field |
| `Bills.BillsFailOnlyOnMissingHref` | main.py:81 | `get_bills` fails, with "An error occurred: 'href'", exactly when a block among the first 50 has a title container whose anchor lacks `href`; no summary can make it fail |
| `Bills.BillsFollowBlocks` | main.py:73-92 | the records' indices are exactly the positions of the titled blocks among the first 50, and each record describes the block at its index |
| `Bills.BillsAreBoundedAndOrdered` | main.py:73-87 | at most 50 records; indices lie in 1..min(50, #blocks), strictly increase, each is the position of a titled block, and the position of every titled block is among them |
| `Bills.LaterBlocksIgnored` | main.py:73 | blocks after the 50th never change the answer |
| `Bills.SummarizerOnlySeesLinks` | main.py:84 | two summarizers that agree on the absolute links of the first 50 blocks give the same answer, so no other URL is ever summarized |
| `Bills.SkippedBlockKeepsItsIndex` | main.py:73-78 | titled, untitled, titled blocks give two records with indices 1 and 3 |
| `Bills.DetailFailuresStayInRecords` | main.py:84 | with `extract_content` as the summarizer, failing detail fetches never fail the request, and a linked record's summary is `extract_content`'s text for its link |

## Left out

- The RSS endpoint `get_un_news` (main.py:18-26) is not modelled. It copies fields out of `feedparser` entries, and that library is not part of this model.
- Browser automation is not modelled: `get_driver`, `driver.get`, `implicitly_wait`, `page_source` and `driver.quit` (main.py:46-55, 63-68). The loop starts from the list of blocks. Exceptions raised there, which would also give "An error occurred: ..." answers, are not modelled.
- The network call `requests.get(url, timeout=10)` (main.py:32) is not modelled. Only its outcome is, as `Summary.FetchOutcome`. The exception message `str(e)` is an arbitrary string.
- HTML parsing is not modelled: `BeautifulSoup`, `find`, `find_all` and `get_text(strip=True)` (main.py:34-37, 67, 70, 74-75, 80-83). Their results are the fields of `Block`, `TitleDiv` and `FetchOutcome`.
- FastAPI routing, `JSONResponse`, the HTTP status 500 and the uvicorn entry point (main.py:13-14, 18-19, 59-60, 94, 97, 100-103) are not modelled. The answer is `Bills.Outcome`: the bill list, or the error body's text.
- The summarizer, and the `fetch` given to `Bills.ExtractContentOver`, are functions of the URL. Two blocks with the same link in one request therefore get the same summary in the model. The code fetches each link separately (main.py:84, 32), and the two answers may differ.
- Nothing here is concurrent. The detail fetches happen one after another in block order, and the model has no timing.
