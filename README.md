# Sliding-window rate limiter of the VanityCert Flask backend proxy

The Flask backend proxy example ships an optional in-memory rate limiter. The
module-level dictionary `rate_limit_cache` maps the key `"ratelimit:" + user_id`
to the list of timestamps of that user's recent requests. `check_rate_limit(user_id,
limit=60, window=60)` does four things in order:

1. It creates an empty list for a missing key.
2. It drops every timestamp `t` with `now - t >= window`.
3. It raises `Rate limit exceeded` when the remaining list holds at least `limit` entries.
4. Otherwise it appends `now`.

This project models that limiter in Dafny (`rate_limiter.dfy`, module `RateLimiter`):

- `RateLimitCache` is a class whose field `entries: map<string, seq<int>>` is the
  dictionary. Its constructor gives the empty module-level table.
- `RateLimitCache.CheckRateLimit` updates `entries` step by step, as the source does. It
  returns `Allowed`, or `Rejected("Rate limit exceeded")` where the source raises.
- The method is proved equal to `Step`, a function over the table as a value. `Prune`
  models the list comprehension that drops expired timestamps.
- `Run` applies `Step` to a sequence of call times for one user. `SlidingWindowBound`
  states what the limiter is for: for calls at non-decreasing times, the stored list
  holds exactly the admitted requests inside the window of the latest call, and there
  are at most `limit` of them.

The wall clock `time()` becomes the integer parameter `now`, and timestamps are
integers rather than floats. The repository's browser widget, with its provisioning
flow controller, is not part of this model; the model covers only the Flask file.

## Model

| member | source | states |
|---|---|---|
| RateLimiter.Key | examples/backend-proxy/flask_app.py:192 | the key of a user is `"ratelimit:"` followed by the user's id: its first ten characters are the prefix and the rest is the id |
| RateLimiter.Entry | examples/backend-proxy/flask_app.py:194-195 | the list a check starts from is the stored list when the key is present and the empty list when it is missing |
| RateLimiter.KeyInjective | examples/backend-proxy/flask_app.py:192 | two user ids share a table key `"ratelimit:" + id` only if they are equal |
| RateLimiter.Prune | examples/backend-proxy/flask_app.py:197-201 | the pruned list is no longer than the input; every kept timestamp comes from the input and satisfies `now - t < window`; every input timestamp inside the window is kept |
| RateLimiter.PruneMultiset | examples/backend-proxy/flask_app.py:198-201 | pruning keeps each in-window timestamp exactly as often as it occurs and no out-of-window one, so an entry exactly `window` old is dropped |
| RateLimiter.PruneAppend | examples/backend-proxy/flask_app.py:198-201 | pruning distributes over concatenation, so the kept entries keep their relative order |
| RateLimiter.PruneCumulative | examples/backend-proxy/flask_app.py:198-201 | pruning at an earlier time and then at a later one equals pruning once at the later time; pruning twice at the same time changes nothing |
| RateLimiter.Step | examples/backend-proxy/flask_app.py:194-206 | a call adds the user's key to the table and changes no other key; it is admitted exactly when the pruned list holds fewer than `limit` entries; a rejection carries the message `Rate limit exceeded` |
| RateLimiter.StepEntry | examples/backend-proxy/flask_app.py:198-206 | on admission the user's list is the pruned list plus `now` (one longer); on rejection it is the pruned list, which holds at least `limit` entries, and `now` is not recorded |
| RateLimiter.StepEntryInWindow | examples/backend-proxy/flask_app.py:198-206 | after a call every timestamp in the user's list is inside the window of `now`, apart from `now` itself when the call was admitted |
| RateLimiter.FirstCallSucceeds | examples/backend-proxy/flask_app.py:194-195 | a user with no entry is admitted on the first call whenever `limit >= 1`, and the list becomes `[now]` |
| RateLimiter.ZeroLimitRejects | examples/backend-proxy/flask_app.py:203-204 | with `limit <= 0` every call is rejected and only the pruned list is written back |
| RateLimiter.BoundPreserved | examples/backend-proxy/flask_app.py:203-206 | with a fixed `limit >= 0`, if every list has at most `limit` entries before a call, the same holds after it |
| RateLimiter.OtherUsersUntouched | examples/backend-proxy/flask_app.py:192-206 | a call for one user neither adds, removes nor changes the entry of any other user |
| RateLimiter.StepKeepsWindow | examples/backend-proxy/flask_app.py:198-206 | if the stored list is the admitted times inside the window of an earlier call, after a later call it is the admitted times inside the window of `now`, and it stays within `limit` |
| RateLimiter.SlidingWindowBound | examples/backend-proxy/flask_app.py:182-206 | for calls at non-decreasing times with `window > 0`, starting from an empty list, the stored list is exactly the admitted request times inside the window of the latest call, and there are at most `limit` of them |
| RateLimiter.RunOtherUsersUntouched | examples/backend-proxy/flask_app.py:192-206 | any number of calls for one user change the table's key set only by adding that user's key (once there is a call); every other key keeps its presence and its list, so no other user's entry is added, removed or changed |
| RateLimiter.RateLimitCache.constructor | examples/backend-proxy/flask_app.py:180 | the table starts empty |
| RateLimiter.RateLimitCache.CheckRateLimit | examples/backend-proxy/flask_app.py:182-206 | the in-place update of the table returns the outcome of `Step` on the old table, and the new table is `Step`'s table |
| RateLimiter.RateLimitCache.CheckRateLimitDefault | examples/backend-proxy/flask_app.py:182 | with the default arguments `limit = 60` and `window = 60`, the call behaves as `Step` with those values |

## Left out

- The request-forwarding endpoint `vanitycert_proxy` (flask_app.py:38-90): network I/O through `requests` and Flask; its error handling only maps exceptions to JSON.
- The webhook endpoint `vanitycert_webhook` (flask_app.py:93-129): HMAC-SHA256 signature checking is a foreign library call over an HTTP body.
- `process_webhook` (flask_app.py:132-167): each branch only logs, so there is no state or result to state anything about.
- `health_check` (flask_app.py:170-173): a constant response.
- The `rate_limit` decorator (flask_app.py:209-236): its `try` body is `pass`, so it never calls the limiter and the 429 branch cannot be reached; it calls the wrapped function unchanged.
- Wall-clock `time()` and float timestamps (flask_app.py:191): the time is the integer parameter `now`, so clock reads and float rounding are not modelled.
- Startup, environment-variable reading and `exit(1)` (flask_app.py:28-35, 239-243): configuration and process I/O.
- User ids: the source formats any Python value into the key with an f-string, so the integer `1` and the string `"1"` share a key. The model takes the id's text form as a `string`.
- Concurrency: Flask may serve requests on several threads, and the source does not lock the dictionary. The model treats each call as atomic.
- BoundPreserved: requires `limit >= 0`. With a negative limit a rejected call for a new user still stores an empty list, whose length exceeds the limit.
- SlidingWindowBound: assumes non-decreasing call times and `window > 0`. If the clock goes backwards, or the window is not positive, the stored list need not match the admitted times.
- The browser widget's provisioning flow controller (submit, poll, retry, cancel, done): its JavaScript source is not part of this model.
