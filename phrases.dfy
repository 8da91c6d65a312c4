/** The congratulation shown when a countdown completes: one of five fixed
    phrases with the user's name in place of the `[Имя]` ("[Name]")
    placeholder. The random choice of phrase is the parameter `i`; the
    component draws it as `Math.floor(Math.random() * 5)`, so `i < 5`. */
module Phrases {
  import opened Wrappers
  import opened JsString

  const Placeholder: string := "[Имя]"

  const MotivationalPhrases: seq<string> := [
    "Найс, ты красавчик, [Имя]",
    "Бахредин горд тобой, [Имя]!",
    "Бахредин говорит респект, [Имя]!",
    "Супер, [Имя]! ",
    "Круто, [Имя]!"
  ]

  /** The text of each phrase before its placeholder. */
  const Heads: seq<string> :=
    ["Найс, ты красавчик, ", "Бахредин горд тобой, ", "Бахредин говорит респект, ", "Супер, ", "Круто, "]

  /** The text of each phrase after its placeholder. */
  const Tails: seq<string> := ["", "!", "!", "! ", "!"]

  function Head(i: nat): string
    requires i < |MotivationalPhrases|
  {
    Heads[i]
  }

  function Tail(i: nat): string
    requires i < |MotivationalPhrases|
  {
    Tails[i]
  }

  /** Every phrase is its head, one placeholder and its tail, and the
      placeholder's first character `[` does not occur in the head, so the
      first placeholder is the one after the head. */
  lemma PhraseParts(i: nat)
    requires i < |MotivationalPhrases|
    ensures MotivationalPhrases[i] == Head(i) + Placeholder + Tail(i)
    ensures Placeholder != [] && Placeholder[0] !in Head(i)
    ensures IndexOf(MotivationalPhrases[i], Placeholder) == Some(|Head(i)|)
  {
    if i == 0 {
      assert MotivationalPhrases[0] == Heads[0] + Placeholder + Tails[0];
    } else if i == 1 {
      assert MotivationalPhrases[1] == Heads[1] + Placeholder + Tails[1];
    } else if i == 2 {
      assert MotivationalPhrases[2] == Heads[2] + Placeholder + Tails[2];
    } else if i == 3 {
      assert MotivationalPhrases[3] == Heads[3] + Placeholder + Tails[3];
    } else {
      assert MotivationalPhrases[4] == Heads[4] + Placeholder + Tails[4];
    }
    assert Placeholder[0] == '[';
    IndexOfAfterHead(Head(i), Placeholder, Tail(i));
  }

  /** `getRandomPhrase` as written: `phrases[i].replace('[Имя]', name)`.
      Because `replace` expands `$` patterns in its second argument, the
      name is put in literally only when it holds no `$`. */
  function PhraseAsWritten(i: nat, name: string): (r: string)
    requires i < |MotivationalPhrases|
    ensures '$' !in name ==> r == Head(i) + name + Tail(i)
  {
    PhraseParts(i);
    ReplaceAfterHead(Head(i), Placeholder, Tail(i), name);
    Replace(MotivationalPhrases[i], Placeholder, name)
  }

  /** A name that is the two characters `$&` never appears in the phrase as
      written: the placeholder is replaced by itself. A name `$$` comes out
      as a single `$`. */
  lemma DollarNamesAreMangled(i: nat)
    requires i < |MotivationalPhrases|
    ensures PhraseAsWritten(i, "$&") == MotivationalPhrases[i]
    ensures PhraseAsWritten(i, "$$") == Head(i) + "$" + Tail(i)
  {
    PhraseParts(i);
    var p := MotivationalPhrases[i];
    var k := |Head(i)|;
    assert p[..k] == Head(i) && p[k + |Placeholder|..] == Tail(i);
    assert p[k..k + |Placeholder|] == Placeholder;
    assert ExpandReplacement("$&", Placeholder, p, k) == Placeholder;
    assert ExpandReplacement("$$", Placeholder, p, k) == "$";
  }

  /** Whatever the name, `replace` leaves the text before the placeholder
      alone: the phrase as written always starts with its head, which is
      never empty. */
  lemma PhraseAsWrittenKeepsHead(i: nat, name: string)
    requires i < |MotivationalPhrases|
    ensures |Head(i)| <= |PhraseAsWritten(i, name)|
    ensures PhraseAsWritten(i, name)[..|Head(i)|] == Head(i)
    ensures PhraseAsWritten(i, name) != []
  {
    PhraseParts(i);
    var p := MotivationalPhrases[i];
    var r := Replace(p, Placeholder, name);
    assert PhraseAsWritten(i, name) == r;
    assert p[..|Head(i)|] == Head(i);
    assert r[..|Head(i)|] == p[..|Head(i)|];
    assert |Head(i)| > 0;
  }

  /** The congratulation with the name substituted literally: the head of
      the phrase, the name, the tail. */
  function Phrase(i: nat, name: string): (r: string)
    requires i < |MotivationalPhrases|
    ensures r == Head(i) + name + Tail(i)
    ensures OccursAt(r, name, |Head(i)|)
  {
    PhraseParts(i);
    ReplaceAfterHead(Head(i), Placeholder, Tail(i), name);
    assert (Head(i) + name + Tail(i))[|Head(i)|..|Head(i)| + |name|] == name;
    ReplaceLiteral(MotivationalPhrases[i], Placeholder, name)
  }

  /** The literal phrase is never empty and is what `replace` produces for
      every name without a `$`. */
  lemma PhraseAgreesWithReplace(i: nat, name: string)
    requires i < |MotivationalPhrases|
    ensures Phrase(i, name) != []
    ensures '$' !in name ==> Phrase(i, name) == PhraseAsWritten(i, name)
  {
    assert |Head(i)| > 0;
  }
}
