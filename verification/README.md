# payload_exists: a verified model of the payload locator

`scripts/payload_exists.py` decides which identifier a payload archive
`<name>_<identifier>_payload.zip` should carry. It globs the output directory
for `<name>_*_payload.zip`. It then takes one of three paths:

- no match: it mints a fresh identifier, the Unix time plus the MD5 digest of
  the glob pattern modulo `10 ** 10`;
- more than one match: it fails with "More than one payload file exists";
- exactly one match: it extracts the digits with the regex
  `<name>_([0-9]+)_payload.zip`.

This project models that decision as the pure function `PayloadExists.Decide`.
The directory listing, the clock and the hash are its inputs. It returns an
`Outcome`:

- `Generated(n)`: a fresh identifier;
- `Existing(digits)`: the identifier of the one existing payload;
- `Ambiguous`: the more-than-one error;
- `MissingIdentifier`: the "Couldn't find identifier" error;
- `ExtractFailed`: the crash on `None.groups()` when the regex does not match.

The project has two modules:

- `Decimal` (decimal.dfy) models Python's `str(int)`, which prints the
  generated identifier. It has an inverse, `Value`, and an injectivity lemma.
- `PayloadExists` (payload_exists.dfy) holds the glob match (`GlobMatch`,
  `Matches`) and the regex match, both as a specification (`Accepts`) and as
  the greedy matcher (`DigitRun`, `Extract`). It also holds the script
  (`Decide`), the printed identifier (`Response`), the corrected script
  (`DecideIntended`) and the lemmas.

Modelling choices:

- `name` is literal text in both patterns, and the output path is literal
  text in the glob. This matches the script whenever neither holds a glob or
  regex metacharacter.
- A `/` in `name` is modelled. `glob.glob` splits the pattern at its last
  `/`: it lists the directory before it and matches only the last component
  of `name` (`LastComponent`). `os.path.basename` then drops the directory
  part, while the regex still expects the whole `name`. The model's
  `basenames` are the entries of the directory the glob lists.
- The glob's `*` matches any text, `_` and newlines included.
- The regex `.` before `zip` is unescaped. It matches any character except a
  newline, as in Python's default mode.
- `re.match` is anchored only at the start, so trailing text after `zip` is
  accepted.
- `[0-9]+` is greedy. Backtracking cannot change the group, because `_` is not
  a digit, so the group is the longest digit run after `<name>_`.

The error message at line 40 shows that a matching file without an
identifier was meant to end in the "Couldn't find identifier" error. The code
instead raises on `None.groups()` at line 38, because `re.match` returns
`None`. The model follows the code. See Findings.

## Model

| member | source | states |
|---|---|---|
| Decimal.NatToString | scripts/payload_exists.py:28 | `str` of a non-negative identifier is a non-empty ASCII digit string; it starts with `0` only for zero, and zero prints as the single digit `0` |
| Decimal.Value | scripts/payload_exists.py:28 | reads a digit string as a number, the reverse direction of `str` (no contract of its own; `ValueOfNatToString` ties the two) |
| Decimal.Str | scripts/payload_exists.py:28 | `str(n)` is all digits for `n >= 0` and a `-` followed by digits for `n < 0` |
| Decimal.ValueOfNatToString | scripts/payload_exists.py:28 | reading the printed digits back as a number gives the identifier: printing loses nothing |
| Decimal.NatToStringInjective | scripts/payload_exists.py:28 | different non-negative identifiers are printed differently |
| Decimal.StrInjective | scripts/payload_exists.py:26-28 | different integer identifiers are printed as different strings |
| PayloadExists.LastComponent | scripts/payload_exists.py:16-18 | the part of `name` the glob matches against entries contains no `/`, and it is all of `name` when `name` has no `/` |
| PayloadExists.LastComponentIsSuffix | scripts/payload_exists.py:16-18 | that part is the longest `/`-free suffix of `name`: it ends `name`, and a `/` stands right before it unless it is all of `name` |
| PayloadExists.GlobMatch | scripts/payload_exists.py:16 | the glob `<name>_*_payload.zip` on one entry: the entry starts with `<name>_` and ends with `_payload.zip` without overlap (no contract of its own; `GlobMatchOf` and `GlobMatchSplit` state its meaning) |
| PayloadExists.GlobMatchOf | scripts/payload_exists.py:16-18 | every `<name>_<s>_payload.zip` is matched by the glob for any `s`, empty or containing `_`, and `s` is what `*` matched |
| PayloadExists.GlobMatchSplit | scripts/payload_exists.py:16-18 | every name the glob matches has the form `<name>_<s>_payload.zip` |
| PayloadExists.Matches | scripts/payload_exists.py:18 | the files returned are the directory entries the glob matches, each with its multiplicity, and nothing else |
| PayloadExists.TwoMatches | scripts/payload_exists.py:18 | two matching entries at different positions give a glob result of at least two files |
| PayloadExists.OnlyMatch | scripts/payload_exists.py:18 | if the glob returns one file and `f` is a matching entry, then `files[0]` is `f` |
| PayloadExists.DigitRun | scripts/payload_exists.py:36 | the greedy `[0-9]+` consumes the longest prefix of ASCII digits: a digit prefix followed by a non-digit or by nothing |
| PayloadExists.DigitRunOf | scripts/payload_exists.py:36 | any digit prefix followed by a non-digit or by nothing is exactly that longest run |
| PayloadExists.Accepts | scripts/payload_exists.py:36 | the regex `<name>_([0-9]+)_payload.zip` accepts the entry at its start with group `d`: non-empty ASCII digits `d`, then `_payload`, a non-newline character and `zip` (no contract of its own; `ExtractCharacterised` compares `Extract` against it) |
| PayloadExists.ExtractSound | scripts/payload_exists.py:36-38 | each check the matcher performs, taken together, means the regex accepts the name with the matched digits as its group |
| PayloadExists.ExtractComplete | scripts/payload_exists.py:36-38 | every group the regex accepts is the group the matcher returns |
| PayloadExists.Extract | scripts/payload_exists.py:36-38 | when the regex yields a group, the name is `<name>_<digits>_payload`, a non-newline character, then `zip`, and the group is those non-empty digits |
| PayloadExists.ExtractCharacterised | scripts/payload_exists.py:36-38 | the matcher yields group `d` if and only if the regex accepts the name with group `d`; so the group is unique, and `None` means no group is accepted |
| PayloadExists.Decide | scripts/payload_exists.py:16-43 | a generated identifier lies in `[now, now + 10**10)`; a reported existing identifier is non-empty ASCII digits; the "Couldn't find identifier" exit is never reached |
| PayloadExists.GeneratedIff | scripts/payload_exists.py:18-20 | a fresh identifier is minted exactly when the glob returns no file |
| PayloadExists.ExistingIff | scripts/payload_exists.py:33-42 | `Existing(d)` is the result exactly when the glob returns one file and the regex accepts that file with group `d` |
| PayloadExists.Response | scripts/payload_exists.py:28-42 | an identifier is printed exactly on the two success paths; a non-negative generated identifier prints as non-empty digits |
| PayloadExists.GeneratedWhenNoMatch | scripts/payload_exists.py:20-27 | with no matching entry, the result is `Generated(now + h % 10**10)`, inside `[now, now + 10**10)` |
| PayloadExists.GeneratedOffsetsDistinct | scripts/payload_exists.py:22-27 | at the same second, two hashes that differ modulo `10**10` give different identifiers, both as outcomes and as printed text |
| PayloadExists.GeneratedSecondsDistinct | scripts/payload_exists.py:26-28 | for the same pattern, runs at different seconds print different identifiers |
| PayloadExists.AmbiguousWhenTwoMatch | scripts/payload_exists.py:33-35 | two matching entries always give the ambiguity error, whatever their middles hold, with no extraction attempted |
| PayloadExists.AmbiguousIff | scripts/payload_exists.py:31-35 | the ambiguity error occurs exactly when the glob returns two or more files |
| PayloadExists.ExistingRoundTrip | scripts/payload_exists.py:36-42 | for a `name` without `/`, if the only match is `<name>_<d>_payload.zip` with `d` non-empty ASCII digits, the result is `Existing(d)` exactly |
| PayloadExists.NextRunRecovers | scripts/payload_exists.py:26-42 | for a `name` without `/`, an identifier printed by one run (when generated, a non-negative one), once embedded in the only matching archive, is printed unchanged by the next run |
| PayloadExists.RegexValidIsGlobMatch | scripts/payload_exists.py:16-36 | for a `name` without `/`, every entry the regex accepts that ends in `_payload.zip` is also matched by the glob, so it counts towards the number of files |
| PayloadExists.SlashNameNeverExtracts | scripts/payload_exists.py:36-38 | with a `/` in `name`, the regex rejects every directory entry, since an entry never holds a `/` |
| PayloadExists.SlashNameCrashes | scripts/payload_exists.py:16-38 | with a `/` in `name` and one match in the sub-directory, even `<last>_<digits>_payload.zip`, the script crashes at `.groups()` |
| PayloadExists.EmptyMiddleRejected | scripts/payload_exists.py:36-38 | the regex rejects `<name>__payload.zip` |
| PayloadExists.EmptyLastComponentRejected | scripts/payload_exists.py:36-38 | for every `name`, the regex rejects `<last>__payload.zip`, with `<last>` the part of `name` the glob matches |
| PayloadExists.EmptyMiddleCrashes | scripts/payload_exists.py:16-38 | when the only match is `<last>__payload.zip`, the script crashes at `.groups()` instead of taking the exit-1 path |
| PayloadExists.NonDigitMiddleRejected | scripts/payload_exists.py:36-38 | the regex rejects a middle that starts with a non-digit (e.g. `<name>_a_7_payload.zip`), and one whose leading digits are followed by a non-digit other than `_` |
| PayloadExists.UnderscoreMiddleRejected | scripts/payload_exists.py:36-38 | the regex rejects a middle of digits, `_`, then text that does not begin with `payload` (e.g. `<name>_1_2_payload.zip`) |
| PayloadExists.TrailingSuffixAccepted | scripts/payload_exists.py:16-38 | the regex is anchored at the start only: `<name>_<d>_payload.zip_payload.zip` yields `d`, although its glob middle contains `_` |
| PayloadExists.LongerNameMakesAmbiguous | scripts/payload_exists.py:16-35 | a payload of a longer name `<last>_<x>` is matched by `name`'s glob, so beside `name`'s own payload it makes `name` ambiguous |
| PayloadExists.DecideIntended | scripts/payload_exists.py:36-41 | corrected script: it never crashes, and it reports the missing-identifier error exactly when the one match is rejected by the regex |
| PayloadExists.IntendedAgreesWhereNoCrash | scripts/payload_exists.py:36-41 | the corrected script differs from the original only where the original crashes, and there it reports the missing-identifier error |
| PayloadExists.EmptyMiddleReportedWhenIntended | scripts/payload_exists.py:39-41 | with the correction, `<last>__payload.zip` ends in the "Couldn't find identifier" error |

## Findings

| source | as written | input that shows it | evidently intended | confidence | as-written member | corrected member |
|---|---|---|---|---|---|---|
| scripts/payload_exists.py:38-41 | `r.match(file_).groups()[0]` calls `.groups()` on `None` when the regex rejects the single match, so the `if not identifier` error branch can never run | the only match is `<name>__payload.zip` (the glob's `*` matches the empty string) | report "ERROR: Couldn't find identifier in existing file" and exit 1 | high; not executed | PayloadExists.EmptyMiddleCrashes | PayloadExists.DecideIntended |

## Left out

- Reading and parsing the JSON request from standard input (line 9). Malformed input or a missing key is an uncaught library fault.
- The directory listing done by `glob.glob` (line 18). The model takes the entries as a list of basenames. A missing directory gives an empty list. Hidden-file rules are not modelled.
- `hashlib.md5` of the pattern (line 27). It is a cryptographic call, so its digest is the input `h`. The probability argument for different output paths is not modelled; `GeneratedOffsetsDistinct` is stated for digests that differ modulo `10 ** 10`.
- The wall clock (line 26). It is the input `now`.
- The JSON formatting, `print` and the exit status (lines 28-29, 34-35, 40-43). These appear as the `Outcome` constructors and `Response`.
- General glob and regex semantics. `name` is interpolated unescaped at lines 16 and 36, and the output path at line 16. The model treats both as literal text, so it assumes neither holds a glob or regex metacharacter (a `/` in `name` is modelled; a metacharacter in the directory part of `name` is not).
- PayloadExists.NextRunRecovers: requires a non-negative generated identifier. Before 1970, `str` of a negative identifier starts with `-`, and the regex would not read it back. It also requires a `name` without `/`: with one, the next run crashes instead (`SlashNameCrashes`).
- PayloadExists.ExistingRoundTrip: requires a `name` without `/`, because with one the script crashes on its own payload (`SlashNameCrashes`).
- PayloadExists.RegexValidIsGlobMatch: requires a `name` without `/`. With one, no directory entry is regex-valid (`SlashNameNeverExtracts`), so there is nothing to count.
