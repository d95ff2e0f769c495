# Ultra-Secure Password Generator: the password-assembly routine in Dafny

The generator is a small Tkinter application. Pressing "Generate Strong Password" runs
`PasswordGeneratorApp.generate_password`. That routine:

1. reads the requested length and rejects text that is not an integer;
2. warns about a length below 12 and about fewer than three ticked character classes;
3. builds `char_map` from the ticked classes in the fixed order uppercase, lowercase, digits,
   punctuation, and rejects an empty selection;
4. joins `char_map` into `full_pool`; in unique mode it rejects a length beyond the pool size;
5. draws one seed character from each ticked class;
6. fills the rest from the pool, with repeats or (unique mode) by `random.sample` from the pool
   minus the seeds;
7. shuffles the list in place and shows the result.

This project models that routine and proves what it guarantees. The guarantees hold for every
outcome of the random generator.

- `Sequences` (`sequences.dfy`) holds four definitions: pairwise distinctness, the set of
  elements of a sequence (Python's `set(...)`), joining strings (`"".join`) and the total length
  of a list of strings. It also holds the lemmas about them.
- `CharClasses` (`char_classes.dfy`) spells out `string.ascii_uppercase`,
  `string.ascii_lowercase`, `string.digits` and `string.punctuation` as constants. It proves that
  no class repeats a character and that no two classes share one.
- `PasswordGenerator` (`password_generator.dfy`) holds the routine itself:
  - `Generate` does the validation and the warnings;
  - `Assemble` and `SeedAndFill` do the seeding, filling and shuffling;
  - the random draws are separate methods (`DrawSeeds`, `FillWithReplacement`, `Sample`,
    `Shuffle`).

  Each draw is an arbitrary choice (`:|`) within the bounds Python's `random` respects.
  `Shuffle` is CPython's Fisher–Yates loop over an array, and its swap partner is also an
  arbitrary choice.

The widgets the routine reads become parameters. The dialogs it opens become the returned
`Report`, which holds the warnings shown (in order) and how the attempt ended.

The code leaves two cases unguarded, and the model reproduces both:

- The code never rejects a length that is zero or negative, and never rejects one shorter than
  the number of ticked classes `k`. In that case `remaining` is negative:
  - Without unique mode, `range(remaining)` is empty and the password has `k` characters, not
    the requested length. `Acceptable` and `Generate` state exactly that length.
  - In unique mode, `random.sample` raises `ValueError` and nothing catches it. The model
    reports this as the outcome `SampleRaised`.
- The warnings are shown before the class and pool checks, so a rejected attempt can still
  carry warnings. `Report` keeps them with every outcome except an unparsable length.

## Model

| member | source | states |
|---|---|---|
| `PasswordGenerator.Generate` | ultra_secure_password_generator.py:46-96 | Every outcome is pinned down. An unparsable length gives `InvalidLength` and no warnings. Otherwise `WeakLength` is shown exactly when length < 12 and `LowDiversity` exactly when fewer than 3 classes are ticked, each at most once and in that order, and neither stops generation. No ticked class gives `NoClassSelected`. Unique mode with length > pool size gives `PoolTooSmall` carrying the pool size, which equals its distinct-character count. Unique mode with length < k gives `SampleRaised`. In every other case a password is generated, and it is `Acceptable`. |
| `PasswordGenerator.Advisories` | ultra_secure_password_generator.py:57-61 | `WeakLength` is shown exactly when the length is below 12 and `LowDiversity` exactly when fewer than 3 classes are ticked; neither is shown twice, and when both are shown `WeakLength` comes first. |
| `PasswordGenerator.Selection.Count` | ultra_secure_password_generator.py:54-55 | `selected_types` is at most 4 and equals the number of classes in `char_map`. |
| `PasswordGenerator.Selection.Classes` | ultra_secure_password_generator.py:64-68 | The enabled classes appear exactly once each, and only those, in the fixed order upper, lower, digits, symbols. |
| `PasswordGenerator.BuildCharMap` | ultra_secure_password_generator.py:64-68 | The appended `char_map` is the list of the enabled classes' strings, in class order. |
| `CharClasses.Chars` | ultra_secure_password_generator.py:65-68 | The four class strings have 26, 26, 10 and 32 characters. |
| `CharClasses.ClassLayout` | ultra_secure_password_generator.py:65-68 | Each class string is in strictly increasing code-point order and lies in its own band: A–Z, a–z, 0–9, or printable ASCII outside those. |
| `CharClasses.ClassHasNoRepeats` | ultra_secure_password_generator.py:65-68 | No class string lists a character twice. |
| `CharClasses.ClassesDisjoint` | ultra_secure_password_generator.py:65-68 | A character of one class is never in another class. |
| `Sequences.Concat` | ultra_secure_password_generator.py:74 | A character is in the joined string exactly when it is in one of the parts. |
| `Sequences.ConcatDistinct` | ultra_secure_password_generator.py:74 | Joining repeat-free, pairwise-disjoint parts gives a repeat-free string. |
| `PasswordGenerator.PoolMembership` | ultra_secure_password_generator.py:74 | A character is in `full_pool` exactly when some enabled class lists it. |
| `PasswordGenerator.PoolHasNoRepeats` | ultra_secure_password_generator.py:74-78 | `full_pool` has no repeats, so `len(full_pool)` is its number of distinct characters, which is what the unique-mode check and its message use. |
| `PasswordGenerator.PoolSize` | ultra_secure_password_generator.py:74-78 | `len(full_pool)` is 26·upper + 26·lower + 10·digits + 32·symbols. |
| `PasswordGenerator.DrawSeeds` | ultra_secure_password_generator.py:82 | The seed list has one character per `char_map` entry, in order, each drawn from that entry's own string. |
| `PasswordGenerator.SeedsHaveNoRepeats` | ultra_secure_password_generator.py:82 | Seeds drawn from distinct classes never coincide. |
| `PasswordGenerator.AvailableAfterSeeds` | ultra_secure_password_generator.py:77-89 | The seeds lie in the pool, and `set(full_pool) - set(password_list)` has exactly `len(full_pool) - k` characters. So a length that passed the check at line 77 never asks `random.sample` for more than it has. |
| `Sequences.Elements` | ultra_secure_password_generator.py:88 | `set(s)` holds exactly the characters occurring in `s`. |
| `PasswordGenerator.Sample` | ultra_secure_password_generator.py:89 | `random.sample(population, k)` returns `k` pairwise-distinct members of the population. |
| `Sequences.DistinctAppend` | ultra_secure_password_generator.py:89 | `seeds + sample` is repeat-free exactly when both parts are and they share no character. |
| `Sequences.DistinctElementsCount` | ultra_secure_password_generator.py:88 | A repeat-free list has as many distinct values as positions. |
| `PasswordGenerator.FillWithReplacement` | ultra_secure_password_generator.py:91-92 | The fill has `remaining` characters (none when `remaining` is negative), all from `full_pool`. |
| `PasswordGenerator.SeedAndFill` | ultra_secure_password_generator.py:81-92 | The unshuffled list is `Acceptable`, except in unique mode with length < k, where `random.sample` raises. |
| `PasswordGenerator.Shuffle` | ultra_secure_password_generator.py:95 | The in-place Fisher–Yates pass leaves the same multiset of characters. |
| `Sequences.DistinctUnderPermutation` | ultra_secure_password_generator.py:95 | Rearranging a list neither creates nor removes repeats. |
| `PasswordGenerator.AcceptableUnderPermutation` | ultra_secure_password_generator.py:95-96 | Length, class coverage, pool membership and distinctness all survive the shuffle. |
| `PasswordGenerator.Assemble` | ultra_secure_password_generator.py:81-96 | After the checks pass, `final_password` is `Acceptable`, unless `random.sample` raises (unique mode, length < k). `Acceptable` means: max(length, k) characters, at least one from every enabled class, only pool characters, and pairwise distinct in unique mode. |

## Left out

- The Tkinter window, the widgets and `mainloop` (lines 7-44 and 110-113) are not modelled. The length and the check-box states are parameters.
- Writing the password into the read-only entry (lines 98-101) is not modelled. The password is returned instead.
- The `messagebox` dialogs are not modelled as dialogs. Errors and warnings are returned as values. The dialog texts are not modelled, only which dialog is shown and the pool size that one message reports.
- `copy_to_clipboard` (lines 103-108) is not modelled. It is clipboard I/O with no logic.
- The parsing by `int(...)` at line 48 is a library call. Its result is the `Option<int>` parameter, with `None` where it raises `ValueError`.
- The probabilities of `random.choice`, `random.sample` and `random.shuffle` are not modelled. Every draw is an arbitrary in-range choice, so uniformity and unpredictability are not stated.
- PasswordGenerator.Shuffle: states that the result is a permutation of the input. It does not state that every permutation can occur.
- PasswordGenerator.Sample: takes the population as a set. The order of `list(set(...))` at line 88 is arbitrary in Python, and the draw is arbitrary anyway.
- The traceback Tkinter prints for the uncaught `ValueError` is not modelled. The outcome `SampleRaised` stands for it.
