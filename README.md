# Word-order reversal (`revString`)

This project models `revString` from `react/src/practice.js`. The function
reverses the order of the words of a string. It splits the string at every
single space, which gives an array of words. Two indices `left` and `right`
start at the two ends of the array. While `left < right`, the loop swaps the
two elements, moves `left` up and moves `right` down. The array is then
joined back with single spaces.

The model has two modules:

- `Words` (`words.dfy`) models JavaScript's `str.split(" ")` as `Split` and
  `array.join(" ")` as `Join`. `Split` cuts at every space and keeps empty
  fields, so consecutive, leading or trailing spaces give `""` words. It
  always returns at least one field: `Split("")` is `[""]`. `Join([])` is
  `""`. The two are proved inverse to each other: `Join(Split(s)) == s` for
  every string, and `Split(Join(ws)) == ws` for every non-empty list of
  words that contain no space.
- `Practice` (`practice.dfy`) models the swap loop as `ReverseInPlace`, a
  method over an array. Its loop invariants are the ones the source's loop
  keeps: `left + right == length - 1`; the positions below `left` and above
  `right` hold their mirrored values; the positions from `left` to `right`
  are untouched. The loop terminates because `right - left` shrinks by 2 on
  each step. Dafny checks that every swap indexes inside the array.
  `RevString` is the whole function: split, copy into a fresh array, reverse
  in place, join. It is proved equal to the specification function
  `ReverseWordOrder(s) == Join(Reversed(Split(s)))`. The properties are
  proved as lemmas about that function.

## Model

| member | source | states |
|---|---|---|
| `Words.Split` | react/src/practice.js:2 | `s.split(" ")` returns at least one field, no field contains a space, and joining the fields with spaces gives `s` back |
| `Words.SplitCount` | react/src/practice.js:2 | `s.split(" ")` has exactly one more field than `s` has space characters |
| `Words.SplitSingle` | react/src/practice.js:2 | `s.split(" ")` is `[s]` exactly when `s` contains no space; this includes `""` |
| `Words.SplitJoin` | react/src/practice.js:2-11 | splitting the join of a non-empty list of space-free words returns that list, so split undoes join |
| `Words.JoinLetters` | react/src/practice.js:11 | `ws.join(" ")` holds the characters of the words plus one space for each gap between them |
| `Practice.ReverseInPlace` | react/src/practice.js:3-10 | the two-index swap loop leaves the array holding its old contents in reverse order, keeping `left + right == length - 1` and leaving the middle section untouched at every step |
| `Practice.RevString` | react/src/practice.js:1-12 | the result is `ReverseWordOrder(str)`; its words are the input's words in reverse order, and it uses the same characters as the input |
| `Practice.ReversedTwice` | react/src/practice.js:6-10 | reversing a list twice gives the list back |
| `Practice.WordsReversed` | react/src/practice.js:2-11 | the result has as many words as the input, and word `i` of the result is word `n-1-i` of the input |
| `Practice.MiddleWordStays` | react/src/practice.js:6-10 | with an odd number `n` of words, word `n/2` keeps its place |
| `Practice.NoSpaceUnchanged` | react/src/practice.js:2-11 | a string without a space, the empty string included, is returned unchanged |
| `Practice.ReverseWordOrderTwice` | react/src/practice.js:1-12 | applying `revString` twice returns the original string |
| `Practice.SameCharacters` | react/src/practice.js:1-12 | the result is a rearrangement of the input's characters, spaces included, so it has the same length |

## Left out

- `console.log(revString("I am dinesh"))` at `react/src/practice.js:14` is output only.
- `Practice.ReverseInPlace` is generic in its element type. The source only runs its loop on the array of strings that `split` returns. `RevString` calls it with that array.
- Strings are sequences of Dafny characters. JavaScript's strings of UTF-16 code units are not modelled separately, because `split(" ")` and `join(" ")` only look for the single code unit of the space.
- The optional `limit` argument of `split` and separators other than `" "` are not modelled; the source does not use them.
- `backend/controller/authController.js` (user registration) is not modelled. It is request handling over Express, Mongoose and bcrypt, whose hashing and storage calls have no visible semantics here. As written it also cannot run: `req`, `res`, `bcrypt` and `message` are undefined, and `user` is bound to `require("express")`. Its duplicate check is inverted: it answers "User already exist" when no user is found. It then falls through to saving, with no `return`. A registration model that keeps emails unique would describe behaviour this code does not have.
- `backend/model/user.js` is a declarative schema whose `required`, `trim` and `unique` rules are enforced inside the database library. It is also broken as written: `mongoose` is `require("express")`, `string` is undefined, and `mongoose.module` is not a model constructor.
- `backend/routes/authRoutes.js` only wires routes, and the handlers it names are never defined or imported. Login, sessions and tokens are implemented nowhere.
- Concurrent registration races are not modelled: the code has no concurrency of its own.
