/** What the vault derives from a service name: the environment-variable
    name that `list_keys` shows and `export_env` writes, and the clean-up the
    menu applies to a service name typed in by the user. */
module Services {
  import opened Wrappers
  import opened Text

  /** Appended to every derived variable name. */
  const ApiKeySuffix: string := "_API_KEY"

  /** What one character of the service becomes in the variable name:
      upper-cased, with `-` turned into `_`. */
  function EnvChar(c: char): char {
    if c == '-' then '_' else UpperChar(c)
  }

  /** `f"{service.upper().replace('-', '_')}_API_KEY"`: character by character
      the service upper-cased with dashes made underscores, then the suffix. */
  function EnvName(service: string): (name: string)
    ensures |name| == |service| + |ApiKeySuffix|
    ensures forall i | 0 <= i < |service| :: name[i] == EnvChar(service[i])
    ensures name[|service|..] == ApiKeySuffix
  {
    Replace(Upper(service), '-', '_') + ApiKeySuffix
  }

  /** A derived name never holds a dash or a lower-case ASCII letter. */
  lemma {:induction false} EnvNameShape(service: string)
    ensures forall i | 0 <= i < |EnvName(service)| ::
              EnvName(service)[i] != '-' && !IsAsciiLower(EnvName(service)[i])
  {
    var name := EnvName(service);
    SuffixShape();
    forall i | 0 <= i < |name| ensures name[i] != '-' && !IsAsciiLower(name[i]) {
      if i >= |service| {
        assert name[i] == ApiKeySuffix[i - |service|];
      }
    }
  }

  lemma SuffixShape()
    ensures forall j | 0 <= j < |ApiKeySuffix| :: ApiKeySuffix[j] != '-' && !IsAsciiLower(ApiKeySuffix[j])
  {
  }

  /** Two services get the same variable name exactly when they agree
      character by character up to case and up to `-` versus `_`. */
  lemma {:induction false} EnvNameCollides(s: string, t: string)
    ensures EnvName(s) == EnvName(t) <==>
              |s| == |t| && forall i | 0 <= i < |s| :: EnvChar(s[i]) == EnvChar(t[i])
  {
    if EnvName(s) == EnvName(t) {
      assert |s| == |t|;
      forall i | 0 <= i < |s| ensures EnvChar(s[i]) == EnvChar(t[i]) {
        assert EnvName(s)[i] == EnvName(t)[i];
      }
    }
    if |s| == |t| && forall i | 0 <= i < |s| :: EnvChar(s[i]) == EnvChar(t[i]) {
      assert EnvName(s) == EnvName(t) by {
        forall i | 0 <= i < |EnvName(s)| ensures EnvName(s)[i] == EnvName(t)[i] {
          if i >= |s| {
            assert EnvName(s)[i] == ApiKeySuffix[i - |s|] == EnvName(t)[i];
          }
        }
      }
    }
  }

  /** "together-ai" exports TOGETHER_AI_API_KEY. */
  lemma EnvNameExample()
    ensures EnvName("together-ai") == "TOGETHER_AI_API_KEY"
  {
    TogetherAiStem("together-ai");
    EnvNameOf("together-ai", "TOGETHER_AI");
  }

  /** The name is not injective: "together_ai" exports the same variable as
      "together-ai", so one would overwrite the other in the env file. */
  lemma EnvNameNotInjective()
    ensures EnvName("together_ai") == EnvName("together-ai")
  {
    TogetherAiStem("together-ai");
    TogetherAiStem("together_ai");
    EnvNameOf("together-ai", "TOGETHER_AI");
    EnvNameOf("together_ai", "TOGETHER_AI");
  }

  /** Character by character, both spellings map to "TOGETHER_AI". The
      split on the index makes the verifier evaluate `EnvChar` on each of
      the eleven literal characters separately; a quantified claim over the
      literal alone runs out of resource. */
  lemma {:induction false} TogetherAiStem(s: string)
    requires s == "together-ai" || s == "together_ai"
    ensures |s| == 11 && forall i | 0 <= i < 11 :: "TOGETHER_AI"[i] == EnvChar(s[i])
    ensures "TOGETHER_AI" + ApiKeySuffix == "TOGETHER_AI_API_KEY"
  {
    var stem := "TOGETHER_AI";
    forall i | 0 <= i < |s| ensures stem[i] == EnvChar(s[i]) {
      if i == 0 {} else if i == 1 {} else if i == 2 {} else if i == 3 {} else if i == 4 {}
      else if i == 5 {} else if i == 6 {} else if i == 7 {} else if i == 8 {} else if i == 9 {}
      else {}
    }
  }

  /** The variable name of `service` when its upper-cased, dash-free form
      is already known. */
  lemma {:induction false} EnvNameOf(service: string, stem: string)
    requires |stem| == |service|
    requires forall i | 0 <= i < |service| :: stem[i] == EnvChar(service[i])
    ensures EnvName(service) == stem + ApiKeySuffix
  {
    var name := EnvName(service);
    forall i | 0 <= i < |name| ensures name[i] == (stem + ApiKeySuffix)[i] {
      if i >= |service| {
        assert name[i] == ApiKeySuffix[i - |service|];
      }
    }
  }

  /** Menu choice 4: `input(...).strip().lower()`, rejected when empty. An
      accepted name has no surrounding whitespace and no upper-case ASCII
      letter; a name is rejected exactly when the input is all whitespace. */
  function NewServiceName(input: string): (name: Option<string>)
    ensures name.None? <==> forall i | 0 <= i < |input| :: IsSpace(input[i])
    ensures name.Some? ==> name.value != [] && Trimmed(name.value)
    ensures name.Some? ==> forall i | 0 <= i < |name.value| :: !IsAsciiUpper(name.value[i])
  {
    var stripped := Strip(input);
    var lowered := Lower(stripped);
    LowerKeepsTrimmed(stripped);
    if lowered == [] then None else Some(lowered)
  }

  /** Lower-casing an ASCII letter never makes or removes whitespace. */
  lemma {:induction false} LowerKeepsTrimmed(s: string)
    requires Trimmed(s)
    ensures Trimmed(Lower(s))
  {
    if s != [] {
      LowerKeepsSpace(s[0]);
      LowerKeepsSpace(s[|s| - 1]);
    }
  }

  lemma LowerKeepsSpace(c: char)
    ensures IsSpace(LowerChar(c)) <==> IsSpace(c)
  {
  }

  /** Normalising an accepted name again gives the same name. */
  lemma {:induction false} NewServiceNameIdempotent(input: string)
    requires NewServiceName(input).Some?
    ensures NewServiceName(NewServiceName(input).value) == NewServiceName(input)
  {
    var n := NewServiceName(input).value;
    StripTrimmed(n);
    assert Lower(n) == n by {
      forall i | 0 <= i < |n| ensures Lower(n)[i] == n[i] {
        assert !IsAsciiUpper(n[i]);
      }
    }
  }

  /** The accepted name is the input with its leading and trailing
      whitespace cut off, every character lower-cased: `lo` is where the
      kept part starts. With `Trimmed`, this determines the name. */
  lemma {:induction false} NewServiceNameValue(input: string) returns (lo: nat)
    requires NewServiceName(input).Some?
    ensures var n := NewServiceName(input).value;
      && lo + |n| <= |input|
      && (forall i | 0 <= i < lo :: IsSpace(input[i]))
      && (forall i | lo + |n| <= i < |input| :: IsSpace(input[i]))
      && (forall i | 0 <= i < |n| :: n[i] == LowerChar(input[lo + i]))
  {
    var stripped := Strip(input);
    StripFactor(input);
    lo :| StrippedAt(input, stripped, lo);
    var n := NewServiceName(input).value;
    assert n == Lower(stripped);
    forall i | 0 <= i < |n| ensures n[i] == LowerChar(input[lo + i]) {
      assert stripped[i] == input[lo + i];
    }
  }

  /** Menu choice 4 stores the lower-cased name (`NewServiceNameValue`), and
      lower-casing never changes the variable name a service exports. */
  lemma {:induction false} EnvNameIgnoresCase(service: string)
    ensures EnvName(Lower(service)) == EnvName(service)
  {
    var lowered := Lower(service);
    forall i | 0 <= i < |service| ensures EnvChar(lowered[i]) == EnvChar(service[i]) {
      EnvCharLower(service[i]);
    }
    EnvNameCollides(lowered, service);
  }

  /** Upper-casing undoes lower-casing, one character at a time. */
  lemma EnvCharLower(c: char)
    ensures EnvChar(LowerChar(c)) == EnvChar(c)
  {
    if IsAsciiUpper(c) {
      assert LowerChar(c) as int == c as int + 32;
    }
  }
}
