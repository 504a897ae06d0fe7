/** The predefined charsets and the resolution of the `charset` option given to
    the annotator's constructor. A charset is the digit alphabet of footnote
    labels: an ordered sequence of symbols, each symbol a string. */
module Charsets {
  import opened Results
  import opened Sequences

  /** Splits a string into its single characters, as `String.split('')` does. */
  function Split(s: string): (symbols: seq<string>)
    ensures |symbols| == |s|
    ensures forall i :: 0 <= i < |s| ==> symbols[i] == [s[i]]
  {
    seq(|s|, i requires 0 <= i < |s| => [s[i]])
  }

  /** Concatenates the symbols of a charset. */
  function Join(symbols: seq<string>): string
  {
    if |symbols| == 0 then "" else Join(symbols[..|symbols| - 1]) + symbols[|symbols| - 1]
  }

  /** Every symbol is exactly one character long. */
  predicate SingleCharacters(symbols: seq<string>)
  {
    forall i :: 0 <= i < |symbols| ==> |symbols[i]| == 1
  }

  const Numeric: seq<string> := Split("0123456789")
  const Alpha: seq<string> := Split("abcdefghijklmnopqrstuvwxyz")
  const Alphanumeric: seq<string> := Split("0123456789abcdefghijklmnopqrstuvwxyz")
  const Qwerty: seq<string> := Split("qwertyuiopasdfghjklzxcvbnm")
  /** HTML entities, kept as opaque symbol strings. */
  const Greek: seq<string> :=
    ["&alpha;", "&beta;", "&gamma;", "&delta;", "&epsilon;", "&zeta;",
     "&eta;", "&theta;", "&iota;", "&kappa;", "&lambda;", "&mu;", "&nu;",
     "&xi;", "&omicron;", "&pi;", "&rho;", "&sigma;", "&tau;", "&upsilon;",
     "&phi;", "&chi;", "&psi;", "&omega;"]
  /** HTML entities, kept as opaque symbol strings. */
  const Special: seq<string> :=
    ["*", "&dagger;", "&Dagger;", "&plusmn;", "&otimes;", "&nabla;",
     "&diams;", "&times;", "&nsub;", "&piv;", "&part;", "&empty;", "&ne;",
     "&prop;", "&there4;", "&tilde;"]

  /** The preset table: a case-sensitive lookup by name. */
  function Preset(name: string): Option<seq<string>>
  {
    if name == "numeric" then Some(Numeric)
    else if name == "alpha" then Some(Alpha)
    else if name == "alphanumeric" then Some(Alphanumeric)
    else if name == "qwerty" then Some(Qwerty)
    else if name == "greek" then Some(Greek)
    else if name == "special" then Some(Special)
    else None
  }

  /** The value of the `charset` option, by its run-time type. `Unset` stands
      for an absent, `undefined` or `null` option, and also for an options
      argument that is not an object at all (the option is then never read). */
  datatype CharsetOption =
    | Unset
    | ArrayOption(symbols: seq<string>)
    | StringOption(text: string)
    | OtherOption

  /** The charset the constructor settles on, or `None` when it throws
      because the option is neither an array nor a string. */
  function Resolve(option: CharsetOption): (r: Option<seq<string>>)
    ensures r.None? <==> option.OtherOption?
    ensures option.Unset? ==> r == Some(Alpha)
    ensures option.ArrayOption? ==> r == Some(option.symbols)
    ensures option.StringOption? && Preset(option.text).Some? ==> r == Preset(option.text)
    ensures option.StringOption? && Preset(option.text).None? ==>
              r.Some? && SingleCharacters(r.value) && Join(r.value) == option.text
  {
    match option
    case Unset => Some(Alpha)
    case ArrayOption(symbols) => Some(symbols)
    case StringOption(text) =>
      var preset := Preset(text);
      if preset.Some? then preset
      else
        JoinSplit(text);
        Some(Split(text))
    case OtherOption => None
  }

  /** Splitting a string and joining the pieces gives the string back. */
  lemma {:induction false} JoinSplit(s: string)
    ensures Join(Split(s)) == s
    decreases |s|
  {
    if |s| > 0 {
      var pieces := Split(s);
      var init := s[..|s| - 1];
      assert pieces[..|s| - 1] == Split(init);
      JoinSplit(init);
      assert s == init + [s[|s| - 1]];
    }
  }

  /** The sizes of the preset charsets: numeric 10, alpha 26, alphanumeric 36,
      qwerty 26, greek 24, special 16; the four plain ones consist of single
      characters. */
  lemma PresetShapes()
    ensures |Numeric| == 10 && |Alpha| == 26 && |Alphanumeric| == 36
    ensures |Qwerty| == 26 && |Greek| == 24 && |Special| == 16
    ensures SingleCharacters(Numeric) && SingleCharacters(Alpha)
    ensures SingleCharacters(Alphanumeric) && SingleCharacters(Qwerty)
  {
  }

  /** The alphabet's symbols are pairwise distinct, so labels written with it
      are too. */
  lemma AlphaDistinct()
    ensures Distinct(Alpha)
  {
    var letters := "abcdefghijklmnopqrstuvwxyz";
    assert forall i :: 0 <= i < 26 ==> letters[i] as int == 'a' as int + i;
    assert forall i, j :: 0 <= i < j < 26 ==> Alpha[i][0] != Alpha[j][0];
  }
}
