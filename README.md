# haralyzer mixins in Dafny

This project models the two mixins that haralyzer's HAR entry and page
wrappers share (`haralyzer/mixins.py`):

- `GetHeaders.get_header_value` looks up a header in the wrapper's ordered
  list of `{name, value}` pairs. Names are compared after lowering both the
  header name and the query. The first matching pair wins. When nothing
  matches, the loop ends and the result is `None`. The model has a method
  with a `while` loop (`GetHeaders.GetHeaderValue`). It is proved equal to
  a recursive definition (`GetHeaders.HeaderValue`). Lemmas about that
  definition state the lookup policy: which match wins, when the result is
  absent, case-insensitivity of the query, and that later duplicates never
  shadow earlier ones.
- `MimicDict` lets a wrapper answer `[]`, `len`, `get`, `keys` and `items`
  by delegating to its `raw_entry` dictionary. The model gives these as
  functions over a `map<string, V>` that stands for `raw_entry`. It proves
  how they relate: indexing agrees with `get`, `get` falls back to its
  default, `len` counts the keys, and `items` has one pair per key.

Python's `None` is `Wrappers.Option`'s `None`. A present value `v` is
`Some(v)`, so a value stored as JSON null is `Some(null)`, not `None`. The headers list and `raw_entry` are immutable Dafny values, so
no lookup can change them. That is the model's form of "the lookup is
read-only".

Files: `wrappers.dfy` (the `Option` type), `get_headers.dfy` (module
`GetHeaders`), `mimic_dict.dfy` (module `MimicDict`).

## Model

| member | source | states |
|---|---|---|
| `GetHeaders.Lower` | haralyzer/mixins.py:13 | lowering keeps the length and lowers each character independently (ASCII letters only) |
| `GetHeaders.LowerIdempotent` | haralyzer/mixins.py:13 | lowering an already lowered name changes nothing |
| `GetHeaders.GetHeaderValue` | haralyzer/mixins.py:6-14 | the loop returns the value of the lowest-index header whose lowered name equals the lowered query; it returns `None` exactly when no header matches; the result equals `HeaderValue` |
| `GetHeaders.HeaderValueFirstMatch` | haralyzer/mixins.py:12-14 | if index `i` is the first matching header, the lookup yields that header's value |
| `GetHeaders.HeaderValueNone` | haralyzer/mixins.py:12-14 | the lookup yields `None` if and only if no header name matches case-insensitively |
| `GetHeaders.HeaderValueSome` | haralyzer/mixins.py:12-14 | any value returned is the value of the first matching header of the list |
| `GetHeaders.HeaderValueCaseInsensitive` | haralyzer/mixins.py:13 | two queries with the same lowercase form (e.g. "content-type" and "Content-Type") give the same result |
| `GetHeaders.HeaderValueLoweredQuery` | haralyzer/mixins.py:13 | querying with the lowered name gives the same result as the name as given |
| `GetHeaders.HeaderValueNoShadow` | haralyzer/mixins.py:12-14 | once a list has a match, appending more headers (including duplicates) does not change the result |
| `MimicDict.GetItem` | haralyzer/mixins.py:20-21 | indexing is defined only for present keys; its value is what `get` returns for that key |
| `MimicDict.Len` | haralyzer/mixins.py:23-24 | the length is the number of keys, and it is zero exactly for the empty dictionary |
| `MimicDict.Get` | haralyzer/mixins.py:26-30 | a present key gives its stored value; an absent key gives the default, and the default defaults to `None` |
| `MimicDict.Keys` | haralyzer/mixins.py:32-36 | the keys are exactly the keys of `raw_entry`, and there are `len` of them |
| `MimicDict.Items` | haralyzer/mixins.py:38-42 | the pairs are exactly the `(key, raw_entry[key])` pairs |
| `MimicDict.GetItemAgreesWithGet` | haralyzer/mixins.py:20-30 | for a present key, `get` with any default agrees with indexing |
| `MimicDict.GetNoneIffAbsent` | haralyzer/mixins.py:26-36 | `get` without a default yields `None` exactly for keys not among `keys()`; a key stored with null is kept apart from an absent key (see Left out) |
| `MimicDict.ItemsCount` | haralyzer/mixins.py:38-42 | `items()` has exactly `len()` pairs |

## Left out

- GetHeaders.Lower: lowers only the ASCII letters A-Z. Python's `str.lower()` also lowers other Unicode letters, and some of those map to more than one character. That needs Unicode tables, which this model does not have.
- Extracting `raw_entry["headers"]` is not modelled. The lookup receives the headers list directly. So the `KeyError` for an entry without a `headers` key is not modelled. Neither are the errors for a header without a `name`/`value` key or with a non-string name. The typed `Header` record rules all of these out.
- MimicDict.Items: gives the pairs as a set. Python returns them in insertion order, and this model does not capture that order. `MimicDict.Keys` is a set for the same reason.
- `keys()` and `items()` return live views that follow later changes to `raw_entry`. The model returns snapshots. Nothing in the mixins changes `raw_entry`, so within these operations the two agree.
- The values stored in `raw_entry` are modelled as an arbitrary type `V`. The JSON structure of HAR records is not modelled.
- The entry aggregation engine is out of this model's scope. It lives in haralyzer's `HarPage` and `HarParser` classes, outside `haralyzer/mixins.py`. It covers content-type classification, entry filtering by regular expression, load-time and size statistics, HAR loading, and the page-not-found error. `tests/test_page.py` exercises that engine on fixture captures, so it is left out too.
- MimicDict.GetNoneIffAbsent: a key stored with JSON null is kept apart from an absent key. In Python, `raw_entry.get(k)` returns `None` both when `k` is absent and when `k` is stored with the value null. Here a stored value `v` is always `Some(v)`, so the lemma's "only for absent keys" holds only for this encoding. A stored null gives `Some(null)`, not `None`.
- GetHeaders.GetHeaderValue: a matching header whose `value` is JSON null makes Python's lookup return `None`, the same as no match. Here header values are strings, so that case does not arise. A `None` result always means that no header matched.
- MimicDict.GetItem: Python raises `KeyError` when `wrapper[item]` names a missing key. Here that error is a precondition, `item in raw`, not a modelled error result.
