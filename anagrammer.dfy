/**
 A model of the `anagrammer` automation module: it receives one message,
 reverses it, reports whether the reversal differs from the message, and
 either succeeds with those values or, for one sentinel message, fails on
 purpose. The host's parameter validation and its JSON reporting are not
 modelled; the two ways of reporting become the two variants of `Result`.
 */
module Anagrammer {

  /** The message that makes the module fail on purpose. */
  const FailTrigger: string := "fail me"

  /** The fixed text reported with the deliberate failure. */
  const FailMessage: string := "You requested this to fail"

  /** What the module reports back to its host. */
  datatype Result =
    | Success(changed: bool, originalMessage: string, reversedMessage: string)
    | Failure(msg: string, changed: bool, originalMessage: string, reversedMessage: string)

  /** The message read back to front, one character at a time (a slice with step -1). */
  function Reverse(s: string): (r: string)
    ensures |r| == |s|
  {
    if s == [] then [] else Reverse(s[1..]) + [s[0]]
  }

  /** The index-wise definition of a palindrome, independent of `Reverse`. */
  predicate IsPalindrome(s: string) {
    forall i :: 0 <= i < |s| ==> s[i] == s[|s| - 1 - i]
  }

  /** The module's `changed` flag: the reversal differs from the message. */
  predicate Changed(s: string) {
    Reverse(s) != s
  }

  /** Character i of the reversal is character |s|-1-i of the message. */
  lemma {:induction false} ReverseAt(s: string, i: nat)
    requires i < |s|
    ensures Reverse(s)[i] == s[|s| - 1 - i]
  {
    if i < |s| - 1 {
      ReverseAt(s[1..], i);
    }
  }

  /** Reversal keeps the length and mirrors every index. */
  lemma {:induction false} ReverseMirrors(s: string)
    ensures |Reverse(s)| == |s|
    ensures forall i :: 0 <= i < |s| ==> Reverse(s)[i] == s[|s| - 1 - i]
  {
    forall i | 0 <= i < |s|
      ensures Reverse(s)[i] == s[|s| - 1 - i]
    {
      ReverseAt(s, i);
    }
  }

  /** Any mirror image of a message is its reversal. */
  lemma ReverseIsMirror(s: string, t: string)
    requires |t| == |s|
    requires forall i :: 0 <= i < |s| ==> t[i] == s[|s| - 1 - i]
    ensures Reverse(s) == t
  {
    ReverseMirrors(s);
  }

  /** Reversing twice gives back the message. */
  lemma ReverseInvolution(s: string)
    ensures Reverse(Reverse(s)) == s
  {
    var r := Reverse(s);
    forall i | 0 <= i < |s|
      ensures Reverse(r)[i] == s[i]
    {
      ReverseAt(r, i);
      ReverseAt(s, |s| - 1 - i);
    }
  }

  /** The reversal is an anagram of the message: the same characters, as often. */
  lemma {:induction false} ReverseIsAnagram(s: string)
    ensures multiset(Reverse(s)) == multiset(s)
  {
    if s != [] {
      ReverseIsAnagram(s[1..]);
      assert s == [s[0]] + s[1..];
    }
  }

  /** `changed` holds exactly when the message is not a palindrome. */
  lemma ChangedIffNotPalindrome(s: string)
    ensures Changed(s) <==> !IsPalindrome(s)
  {
    ReverseMirrors(s);
    if IsPalindrome(s) {
      assert Reverse(s) == s;
    }
  }

  /** The empty message and every one-character message are left unchanged. */
  lemma ShortMessageUnchanged(s: string)
    requires |s| <= 1
    ensures !Changed(s)
  {
  }

  /**
   One invocation of the module. The sentinel message fails with a fixed text
   and `changed` forced to true; every other message succeeds with the
   computed flag. Both outcomes echo the message and carry its reversal.
   */
  function Run(message: string): (r: Result)
    ensures r.Failure? <==> message == FailTrigger
    ensures r.Failure? ==> r.msg == FailMessage && r.changed
    ensures r.changed <==> !IsPalindrome(message)
    ensures r.originalMessage == message
    ensures |r.reversedMessage| == |message|
    ensures forall i :: 0 <= i < |message| ==> r.reversedMessage[i] == message[|message| - 1 - i]
    ensures multiset(r.reversedMessage) == multiset(message)
  {
    ReverseMirrors(message);
    ReverseIsAnagram(message);
    ChangedIffNotPalindrome(message);
    FailTriggerIsChanged();
    var reversed := Reverse(message);
    var changed := Changed(message);
    if message == FailTrigger then
      Failure(FailMessage, true, message, reversed)
    else
      Success(changed, message, reversed)
  }

  /** The sentinel's outcome, field by field. */
  lemma RunFailMe()
    ensures Run("fail me") == Failure("You requested this to fail", true, "fail me", "em liaf")
  {
    ReverseIsMirror("fail me", "em liaf");
  }

  /** On the sentinel the forced flag agrees with the computed one: "fail me" is no palindrome. */
  lemma FailTriggerIsChanged()
    ensures Changed(FailTrigger)
  {
  }

  /** Every other message succeeds with the computed flag and the reversal. */
  lemma RunSucceedsOtherwise(message: string)
    requires message != FailTrigger
    ensures Run(message) == Success(Changed(message), message, Reverse(message))
  {
  }

  lemma RunHello()
    ensures Run("hello") == Success(true, "hello", "olleh")
  {
    ReverseIsMirror("hello", "olleh");
  }

  lemma RunEmpty()
    ensures Run("") == Success(false, "", "")
  {
  }

  lemma RunSingleCharacter(c: char)
    ensures Run([c]) == Success(false, [c], [c])
  {
  }
}
