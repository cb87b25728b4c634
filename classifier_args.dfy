/**
 * The argument check of the classifier's command line: either
 * `--fit|--predict <data> <model>` or `--fit <data> <model> --num-features N`.
 * `argv` is the sequence of arguments, the program name first, so that
 * `argc` is its length.
 */
module ClassifierArgs {
  import opened Collections
  import opened Text

  const FIT_ARG: string := "--fit"
  const PREDICT_ARG: string := "--predict"
  const NUM_FEATURES_ARG: string := "--num-features"
  const DIGITS: string := "0123456789"

  /** `s.find_first_not_of(chars, from)`: the first position at or after
      `from` whose character is not in `chars`, None for `npos`. */
  function FindFirstNotOf(s: string, chars: string, from: nat): (r: Option<nat>)
    requires from <= |s|
    ensures r.Some? ==> from <= r.value < |s| && s[r.value] !in chars
    ensures r.Some? ==> forall k :: from <= k < r.value ==> s[k] in chars
    decreases |s| - from
  {
    if from == |s| then None
    else if s[from] !in chars then Some(from)
    else FindFirstNotOf(s, chars, from + 1)
  }

  /** `npos` comes back exactly when every character from `from` on is in `chars`. */
  lemma {:induction false} FindFirstNotOfNone(s: string, chars: string, from: nat)
    requires from <= |s|
    ensures FindFirstNotOf(s, chars, from) == None <==> forall i :: from <= i < |s| ==> s[i] in chars
    decreases |s| - from
  {
    if from < |s| && s[from] in chars {
      FindFirstNotOfNone(s, chars, from + 1);
    }
  }

  /** `correct_args`: four arguments with `--fit` or `--predict`, or six
      with `--fit`, `--num-features` and an all-digit count (the empty
      string included). */
  function CorrectArgs(argv: seq<string>): (ok: bool)
    ensures |argv| != 4 && |argv| != 6 ==> !ok
    ensures |argv| == 4 ==> (ok <==> argv[1] == FIT_ARG || argv[1] == PREDICT_ARG)
    ensures |argv| == 6 ==>
      (ok <==> argv[1] == FIT_ARG && argv[4] == NUM_FEATURES_ARG && forall i :: 0 <= i < |argv[5]| ==> IsDigit(argv[5][i]))
  {
    if !(|argv| == 4 || |argv| == 6) then false
    else
      var option := argv[1];
      var correctOption := option == FIT_ARG || option == PREDICT_ARG;
      if |argv| == 4 then correctOption
      else
        var numFeaturesOption := argv[4];
        var numFeatures := argv[5];
        FindFirstNotOfNone(numFeatures, DIGITS, 0);
        var onlyDigits := FindFirstNotOf(numFeatures, DIGITS, 0) == None;
        option == FIT_ARG && numFeaturesOption == NUM_FEATURES_ARG && onlyDigits
  }

  /** `--predict` never takes a feature count, and an empty feature count
      passes the digit check although converting it later fails. */
  lemma CorrectArgsExamples()
    ensures !CorrectArgs(["classifier", PREDICT_ARG, "test", "model", NUM_FEATURES_ARG, "10"])
    ensures CorrectArgs(["classifier", FIT_ARG, "train", "model", NUM_FEATURES_ARG, ""])
    ensures !CorrectArgs(["classifier", FIT_ARG, "train", "model", NUM_FEATURES_ARG, "1e3"])
    ensures CorrectArgs(["classifier", PREDICT_ARG, "test", "model"])
    ensures !CorrectArgs(["classifier", FIT_ARG, "train"])
  {
    assert !IsDigit("1e3"[1]);
  }
}
