# FatSecretConnect core, modelled in Dafny

FatSecretConnect is a thin client around a nutrition-tracking web service. This
project models its three pieces of self-contained logic:

- **Monthly entries with gap filling** (`FatSecret_Library.food_entries_get_month_w_error_checking`):
  the provider's answer for a month — one dict, a list of dicts, or a `KeyError` —
  is normalised to a list, scanned for an entry whose `date_int` equals the
  requested day's key, and a zero-valued placeholder for that day is appended
  when none is found (module `MonthEntries`, file `month_entries.dfy`). The key is
  Python's `str` of the provider's integer day index, modelled in module
  `Decimal` (`decimal.dfy`) together with its inverse, so that distinct days
  are known to give distinct keys.
- **The retry decorator** (`FatSecret_Library.retry` / `deco_retry` / `f_retry`):
  a bounded loop that re-invokes a call on a matching exception, sleeping with a
  geometrically growing delay (module `Retry`, `retry.dfy`). The wrapped call is
  a parameter `f: nat -> Outcome`, `f(i)` being what the i-th call returns or
  raises; the `except exception_type` test is a parameter `caught`. A run
  reports how it ended, the number of calls and the delays slept. It ends
  with the last call's outcome, or with the `ValueError` that `sleep` raises
  inside the handler when the current delay is negative. The loop is
  given twice: as the recursive function `Attempts` and as the method
  `RetryLoop`, written like the source's `while` loop and proved equal to it.
- **The `Food` value type** (`food.py`): field-wise scaling by a scalar through
  `_func`, `__truediv__` and `__mul__`, and the six-line `__str__` (module
  `FoodValue`, `food.dfy`). Numbers are `real`; Python's `NotImplemented`
  is `None` of the `Option` in `wrappers.dfy`.

Inputs that come from code outside the core are parameters: the provider's
answer (`fs.food_entries_get_month`), the day index (`fs.unix_time`), the
wrapped call of the retry decorator, and the formatting of a number inside an
f-string (`show` in `FoodValue.Render`).

Where the code and its documentation disagree, the model follows the code:

- On `KeyError` the docstring (fatsecretconnect/fatsecret_library.py:110) says
  the month is treated as empty. In the code
  the variable keeps its initial `{}`, which is a dict and so is wrapped to
  `[{}]`; the result is `[{}, placeholder]`, two entries (`MonthEntries.KeyErrorResult`).
- One entry per day is the natural reading of the gap fill, but the code only
  guarantees at least one entry for the requested day; exactly one holds when
  the provider did not send that day twice (`MonthEntries.ExactlyOneForDay`,
  `MonthEntries.DuplicatesKept`).

## Model

| member | source | states |
|---|---|---|
| Decimal.Str | fatsecretconnect/fatsecret_library.py:140 | `str(date_int)` is non-empty, starts with `-` exactly for negative day indices, is otherwise all decimal digits, and has no leading zero: day index 0 renders as `"0"` and no other index has `0` as its first digit |
| Decimal.StrRoundTrip | fatsecretconnect/fatsecret_library.py:153 | reading the rendered key back with `int` gives the same day index |
| Decimal.StrInjective | fatsecretconnect/fatsecret_library.py:140 | two day indices share a key exactly when they are the same day |
| MonthEntries.Normalise | fatsecretconnect/fatsecret_library.py:125-132 | a list answer is used as it is, a lone dict or a `KeyError` gives a one-element list, and on `KeyError` that element is the initial empty dict, which answers to no day; its place in the result is stated by `SingleIsWrapped`, `ListIsPrefix` and `KeyErrorResult` |
| MonthEntries.Matches | fatsecretconnect/fatsecret_library.py:140 | `entry.get("date_int") == str(date_int)`: an entry without `date_int` never matches; the scan over a list is stated by `Scan` |
| MonthEntries.Scan | fatsecretconnect/fatsecret_library.py:138-142 | the scan with `break` reports a match exactly when some entry's `date_int` equals the key; an entry without `date_int` never matches |
| MonthEntries.Placeholder | fatsecretconnect/fatsecret_library.py:149-157 | the placeholder carries exactly the fields calories, carbohydrate, date_int, fat and protein, and answers to the requested key |
| MonthEntries.EntriesForMonth | fatsecretconnect/fatsecret_library.py:107-159 | the result is non-empty, always holds an entry for the requested day, starts with the normalised provider entries, is at most one longer, and equals them exactly when the day was already present |
| MonthEntries.SingleIsWrapped | fatsecretconnect/fatsecret_library.py:131-132 | a lone dict becomes the first entry, and nothing follows it exactly when it is the requested day |
| MonthEntries.ListIsPrefix | fatsecretconnect/fatsecret_library.py:131-132 | a list answer is kept unchanged and in order at the front of the result |
| MonthEntries.KeyErrorResult | fatsecretconnect/fatsecret_library.py:125-132 | on `KeyError` the result is exactly `[{}, placeholder]`, of length 2 |
| MonthEntries.PresentDayUnchanged | fatsecretconnect/fatsecret_library.py:138-145 | when some entry already has the day's key the normalised list is returned and nothing is appended |
| MonthEntries.MissingDayAppended | fatsecretconnect/fatsecret_library.py:145-157 | when no entry has the key, exactly one placeholder is appended after the provider's entries, with calories, carbohydrate, fat and protein `"0"` and `date_int` the day's key |
| MonthEntries.PlaceholderOnlyForItsDay | fatsecretconnect/fatsecret_library.py:153 | the appended placeholder is addressable by the requested day and by no other day |
| MonthEntries.FillIdempotent | fatsecretconnect/fatsecret_library.py:138-159 | gap-filling an already gap-filled month for the same day changes nothing |
| MonthEntries.ExactlyOneForDay | fatsecretconnect/fatsecret_library.py:138-157 | if the provider sent the day at most once, exactly one entry of the result has the day's key |
| MonthEntries.PresentCountKept | fatsecretconnect/fatsecret_library.py:139-145 | when the requested day is present, the result has exactly as many entries for it as the provider sent, so duplicates are passed through |
| MonthEntries.DuplicatesKept | fatsecretconnect/fatsecret_library.py:139-142 | for example, a list holding the same day's entry twice gives a result with two entries for that day: one entry per day is not enforced |
| Retry.Attempts | fatsecretconnect/fatsecret_library.py:216-229 | the loop from any state makes at least one and at most `max(tries, 1)` further calls; the rest of its behaviour is stated by `AttemptsSpec` |
| Retry.AttemptsSpec | fatsecretconnect/fatsecret_library.py:217-229 | from any loop state, the run makes between 1 and `max(tries, 1)` calls, every call before the last raised a caught exception, and it sleeps once per retried call, each delay non-negative and `backoff` times the previous; it ends with the last call's outcome, early only on a value or an uncaught exception, or, before the budget is spent, with `sleep` rejecting a negative delay after a caught failure |
| Retry.Retry | fatsecretconnect/fatsecret_library.py:189-233 | the decorated call makes between 1 and `max(max_attempts, 1)` calls, retried only caught exceptions, and slept `calls - 1` times, the i-th sleep being `initial_delay * backoff_factor^i` and non-negative; it hands back the last call's outcome, early only on a value or an uncaught exception, or raises from `sleep` when the delay due after a caught failure is negative |
| Retry.RetryLoop | fatsecretconnect/fatsecret_library.py:216-229 | the `while mtries > 1` loop, with its early returns and the `sleep` that can raise, computes the same ending, call count and sleeps as the recursive definition |
| Retry.SingleAttempt | fatsecretconnect/fatsecret_library.py:217-218 | with `max_attempts <= 1` the call is made once, nothing is caught and nothing is slept |
| Retry.SucceedsAfterFailures | fatsecretconnect/fatsecret_library.py:218-229 | `k` caught failures then a value, with `k < max_attempts` and none of the `k` delays negative, return that value after exactly `k + 1` calls and `k` sleeps |
| Retry.AlwaysFailing | fatsecretconnect/fatsecret_library.py:218-229 | a call that always raises a caught exception, with no negative delay in the budget, is made exactly `max_attempts` times and the last failure propagates |
| Retry.UncaughtPropagates | fatsecretconnect/fatsecret_library.py:219-221 | an exception that does not match propagates from the call that raised it, with no sleep after it |
| Retry.NegativeDelayRaises | fatsecretconnect/fatsecret_library.py:221-225 | when the delay due after the `(k+1)`-th caught failure is the first negative one, `sleep` raises after `k + 1` calls and `k` sleeps, and the wrapped call is not made again |
| Retry.DefaultRun | fatsecretconnect/fatsecret_library.py:190-195 | with the defaults `max_attempts=10`, `initial_delay=5`, `backoff_factor=1.5` the call is made at most 10 times, `sleep` never raises, the last call's outcome is handed back, and the delays start 5, 7.5, 11.25 |
| Retry.TotalDelay | fatsecretconnect/fatsecret_library.py:222-228 | the total time slept satisfies `(backoff - 1) * total == initial_delay * (backoff^(calls - 1) - 1)`, and with `backoff == 1` it is `(calls - 1) * initial_delay` |
| FoodValue.Scale | fatsecretconnect/food.py:25-38 | a numeric operand yields a Food with the name copied and every numeric field put through the operator; any other operand yields `NotImplemented` |
| FoodValue.Div | fatsecretconnect/food.py:40-41 | `food / s` has every numeric field equal to the original's divided by `s` (times `s` gives it back), name kept; non-numeric `s` gives `NotImplemented` |
| FoodValue.Mul | fatsecretconnect/food.py:43-44 | `food * s` has every numeric field equal to the original's times `s`, name kept; non-numeric `s` gives `NotImplemented` |
| FoodValue.DivUndoesMul | fatsecretconnect/food.py:28-44 | `(food * s) / s == food` for every nonzero `s` |
| FoodValue.MulUndoesDiv | fatsecretconnect/food.py:28-44 | `(food / s) * s == food` for every nonzero `s` |
| FoodValue.NonNumericNotImplemented | fatsecretconnect/food.py:37-38 | both operators give `NotImplemented` for a non-numeric operand |
| FoodValue.HalfAnEgg | fatsecretconnect/food.py:40-41 | `Food("egg", 50, 70, 5, 1, 6) / 2` is `Food("egg", 25, 35, 2.5, 0.5, 3)` |
| FoodValue.Render | fatsecretconnect/food.py:17-23 | `__str__` starts with `name: ` followed by the name; the full six-line layout is stated by `RenderSixLines` |
| FoodValue.RenderSixLines | fatsecretconnect/food.py:17-23 | `__str__` reads back as exactly six lines `label: value`, in the order name, weight, calories, fat, carbohydrates, protein, when no value contains a newline |

## Left out

- `requests_session` (fatsecretconnect/fatsecret_library.py:23-40): configuration of the HTTP library's retry adapter, with no logic of its own.
- `fs_authenticate` (fatsecretconnect/fatsecret_library.py:42-102): an HTTP form post, HTML parsing and the OAuth exchange, all network I/O and calls into foreign libraries.
- `check_authenticated` and `get_fs`: they return state that only `fs_authenticate` sets.
- `__str__` and `__repr__` of `FatSecret_Library`: they return the constant string `"FatSecret_Library()"`.
- `convert_unix_to_datetime`, `get_datetime_now`, `get_current_file_name` (fatsecretconnect/fatsecret_library.py:161-178): thin wrappers over date, time-zone and path libraries.
- `main` and setup.py: glue and packaging metadata.
- `fs.food_entries_get_month` and `fs.unix_time`: foreign calls; their answer and the day index are inputs. Any exception other than `KeyError` from the provider simply propagates and is not modelled, nor are answers of other shapes.
- The in-place `append` on the provider's own list object is not modelled: the model works with values, so the provider's list is never changed.
- `print`, `pprint` and `sleep`: side effects; delays are recorded as data instead of slept. The one way `sleep` fails that the model keeps is the `ValueError` for a negative delay; a delay too large for the platform's timer (`OverflowError`) is not modelled, since delays are unbounded reals here.
- Floating point: numeric fields and delays are `real`, so `(food * s) / s == food` holds in the model exactly, which Python floats do not promise. Python's `bool` counting as `int` in `isinstance` is not modelled.
- `*args` and `**kwargs` forwarding in the retry decorator: the wrapped call is abstracted by its outcome per attempt.
- Scaling leaves its operand untouched: this holds by construction, since `Food` is an immutable value here.
- FoodValue.Div: division by zero is a precondition rather than an error result, because the source raises `ZeroDivisionError` there without handling it.
- FoodValue.Scale: carries the same division-by-zero precondition as `FoodValue.Div`, for the same reason.
- FoodValue.RenderSixLines: how Python formats a number in an f-string is the parameter `show`, so the lemma states the line structure, not the digits.
