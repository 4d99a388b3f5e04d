# anagrammer, modelled in Dafny

`anagrammer` is an automation module for a configuration-management host. It
takes one required string parameter, `message`, and reverses it. It reports a
`changed` flag that is true exactly when the reversal differs from the message,
which means the message is not a palindrome. For the one message `"fail me"`
it fails on purpose. That failure carries the fixed text
`"You requested this to fail"` and reports `changed` as true no matter what.
Every other message succeeds. Both outcomes echo the original message and
carry its reversal.

The model is one module, `Anagrammer`, in `anagrammer.dfy`. It has:

- `Reverse`: the message read back to front. It is defined recursively and is
  the reference for Python's `message[::-1]`.
- `IsPalindrome`: a palindrome defined index by index, without using
  `Reverse`.
- `Changed`: the module's flag, `Reverse(s) != s`.
- `Result`: the two ways the module reports back, `Success` (the host's
  `exit_json`) and `Failure` (the host's `fail_json`). They share the fields
  `changed`, `originalMessage` and `reversedMessage`, and `Failure` also has
  `msg`.
- `Run`: one invocation of the module. `fail_json` ends the process, so the
  sentinel branch returns `Failure` and never reaches the success report.

## Model

| member | source | states |
|---|---|---|
| `Anagrammer.Reverse` | examinations/18/library/anagrammer.py:19 | The reversal has the same length as the message. |
| `Anagrammer.ReverseAt` | examinations/18/library/anagrammer.py:19 | Character i of the reversal is character \|m\|-1-i of the message. |
| `Anagrammer.ReverseMirrors` | examinations/18/library/anagrammer.py:19 | Reversal keeps the length and mirrors every index. |
| `Anagrammer.ReverseIsMirror` | examinations/18/library/anagrammer.py:19 | Any sequence of the same length that mirrors every index of the message is its reversal, so the reversal is unique. |
| `Anagrammer.ReverseInvolution` | examinations/18/library/anagrammer.py:19 | Reversing the reversed message gives back the message. |
| `Anagrammer.ReverseIsAnagram` | examinations/18/library/anagrammer.py:19 | The reversal is an anagram of the message: its multiset of characters is the same. |
| `Anagrammer.Changed` | examinations/18/library/anagrammer.py:22-25 | The flag is `Reverse(s) != s`, the source's `message != reversed_message`; `ChangedIffNotPalindrome` proves it is true exactly when the message is not a palindrome. |
| `Anagrammer.ChangedIffNotPalindrome` | examinations/18/library/anagrammer.py:22-25 | `changed` is true if and only if the message is not a palindrome, in both directions. |
| `Anagrammer.ShortMessageUnchanged` | examinations/18/library/anagrammer.py:22-25 | The empty message and every one-character message give `changed` = false. |
| `Anagrammer.Run` | examinations/18/library/anagrammer.py:16-41 | The outcome is `Failure` exactly for `"fail me"`. A failure carries the fixed text and `changed` = true. In both outcomes `changed` holds exactly when the message is not a palindrome; on the failure path the flag is the literal true, which agrees because `"fail me"` is no palindrome. Both outcomes echo the message verbatim and carry a reversal that mirrors it index by index and has the same characters. |
| `Anagrammer.RunFailMe` | examinations/18/library/anagrammer.py:28-34 | `"fail me"` gives `Failure("You requested this to fail", true, "fail me", "em liaf")`. |
| `Anagrammer.FailTriggerIsChanged` | examinations/18/library/anagrammer.py:22-31 | The computed flag for `"fail me"` is also true, so the hardcoded `changed=True` on the failure path agrees with the comparison. |
| `Anagrammer.RunSucceedsOtherwise` | examinations/18/library/anagrammer.py:28-41 | Every message other than `"fail me"` succeeds and never fails. The success carries the computed flag, the message and its reversal. |
| `Anagrammer.RunHello` | examinations/18/library/anagrammer.py:19-41 | `"hello"` gives `Success(true, "hello", "olleh")`. |
| `Anagrammer.RunEmpty` | examinations/18/library/anagrammer.py:19-41 | `""` gives `Success(false, "", "")`. |
| `Anagrammer.RunSingleCharacter` | examinations/18/library/anagrammer.py:19-41 | Any one-character message c gives `Success(false, c, c)`. |

## Left out

- Building the host module object and its declared parameter schema (lines 8-13) are left out. The schema says `message` is a required string. The host makes sure the logic receives a string: it rejects a missing value and converts or rejects a non-string one. So `Run` takes a string.
- Check mode (line 12) is left out. The computation has no side effects, so check mode changes nothing.
- The `exit_json` and `fail_json` calls are left out as mechanisms. They print JSON and end the process. Here they are the `Success` and `Failure` variants of the value `Run` returns.
- The `__main__` entry guard (lines 43-44) is left out.
- Python strings are sequences of code points, and Dafny's `char` is a Unicode scalar value. The model reverses element by element and makes no claim about grapheme clusters, normalisation, or lone surrogate code points.
