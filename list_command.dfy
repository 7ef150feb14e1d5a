/**
 * The decision logic of the `ruleset:list` console command
 * (src/Commands/RulesetListCommand.php): which rulesets the four filter
 * flags let through, the "Filters:" label, and the coloured labels of the
 * table. Option reading, structure discovery, reflection and table output
 * are not modelled; the facts they would supply are parameters.
 */
module ListCommand {
  import opened Strings

  /** The four options as given: `-a`, `-c`, `-s`, `-m`. */
  datatype Flags = Flags(filterAbstract: bool, filterConcrete: bool, filterStandard: bool, filterModel: bool)

  /** The filters that are actually applied. */
  datatype Only = Only(onlyAbstract: bool, onlyConcrete: bool, onlyStandard: bool, onlyModel: bool)

  /** handle(): a filter applies only when its opposite was not also given,
      so giving both flags of a pair is the same as giving neither. */
  function OnlyFilters(f: Flags): (o: Only)
    ensures !(o.onlyAbstract && o.onlyConcrete) && !(o.onlyStandard && o.onlyModel)
    ensures f.filterAbstract == f.filterConcrete ==> !o.onlyAbstract && !o.onlyConcrete
    ensures f.filterStandard == f.filterModel ==> !o.onlyStandard && !o.onlyModel
    ensures f.filterAbstract != f.filterConcrete ==>
      o.onlyAbstract == f.filterAbstract && o.onlyConcrete == f.filterConcrete
    ensures f.filterStandard != f.filterModel ==>
      o.onlyStandard == f.filterStandard && o.onlyModel == f.filterModel
  {
    Only(f.filterAbstract && !f.filterConcrete, f.filterConcrete && !f.filterAbstract,
         f.filterStandard && !f.filterModel, f.filterModel && !f.filterStandard)
  }

  /** The discovery condition of discoverRulesets() on one class, written
      with the source's early returns. `isModel` is what isModelRuleset()
      answers; it is consulted only when a standard or model filter is on. */
  function Accepts(o: Only, isAbstract: bool, isModel: bool): (accepted: bool)
    ensures accepted <==>
      && !(o.onlyConcrete && isAbstract)
      && !(o.onlyAbstract && !isAbstract)
      && !(o.onlyStandard && isModel)
      && !(o.onlyModel && !isModel)
  {
    if o.onlyConcrete && isAbstract then false
    else if o.onlyAbstract && !isAbstract then false
    else if o.onlyStandard || o.onlyModel then
      if o.onlyStandard && isModel then false
      else if o.onlyModel && !isModel then false
      else true
    else true
  }

  /** Without a standard or model filter the answer of isModelRuleset() does
      not matter, and without any filter every class is listed. */
  lemma AcceptsWithoutFilters(o: Only, isAbstract: bool)
    ensures !o.onlyStandard && !o.onlyModel ==>
      Accepts(o, isAbstract, true) == Accepts(o, isAbstract, false)
    ensures o == Only(false, false, false, false) ==>
      Accepts(o, isAbstract, true) && Accepts(o, isAbstract, false)
  {
  }

  /** In terms of the flags as given: a class is listed exactly when it
      matches every flag whose partner was not also given. */
  lemma AcceptsFlags(f: Flags, isAbstract: bool, isModel: bool)
    ensures Accepts(OnlyFilters(f), isAbstract, isModel) <==>
      && (f.filterAbstract == f.filterConcrete || isAbstract == f.filterAbstract)
      && (f.filterStandard == f.filterModel || isModel == f.filterModel)
  {
  }

  // ---------------------------------------------------------------------
  // displayFilterInfo

  const AllRulesets: string := "All Rulesets"

  /** The position of a filter name in the fixed order Abstract, Concrete,
      Standard, Model. */
  function Rank(name: string): nat
  {
    if name == "Abstract" then 0
    else if name == "Concrete" then 1
    else if name == "Standard" then 2
    else 3
  }

  /** Whether the flag called `name` is set. */
  predicate Named(f: Flags, name: string)
  {
    || (name == "Abstract" && f.filterAbstract)
    || (name == "Concrete" && f.filterConcrete)
    || (name == "Standard" && f.filterStandard)
    || (name == "Model" && f.filterModel)
  }

  predicate AllSet(f: Flags)
  {
    f.filterAbstract && f.filterConcrete && f.filterStandard && f.filterModel
  }

  /** The names of the flags that are set, in the fixed order Abstract,
      Concrete, Standard, Model; none when all four are set. */
  function FilterNames(f: Flags): (names: seq<string>)
    ensures forall n :: n in names <==> !AllSet(f) && Named(f, n)
    ensures forall i, j :: 0 <= i < j < |names| ==> Rank(names[i]) < Rank(names[j])
  {
    var all := AllSet(f);
    (if !all && f.filterAbstract then ["Abstract"] else [])
      + (if !all && f.filterConcrete then ["Concrete"] else [])
      + (if !all && f.filterStandard then ["Standard"] else [])
      + (if !all && f.filterModel then ["Model"] else [])
  }

  /** The label printed after "Filters:". */
  function FilterLabel(f: Flags): string
  {
    var names := FilterNames(f);
    if names == [] then AllRulesets else Join(names, ", ")
  }

  /** The label reads "All Rulesets" exactly when no flag or every flag is
      set; otherwise it starts with the first flag that is set. */
  lemma FilterLabelAll(f: Flags)
    ensures FilterLabel(f) == AllRulesets <==>
      (!f.filterAbstract && !f.filterConcrete && !f.filterStandard && !f.filterModel)
      || (f.filterAbstract && f.filterConcrete && f.filterStandard && f.filterModel)
  {
    var names := FilterNames(f);
    if names != [] {
      JoinStartsWith(names, ", ");
      NotAllRulesets(names[0], Join(names, ", "));
    }
  }

  /** No flag name is a prefix of "All Rulesets". */
  lemma NotAllRulesets(name: string, shown: string)
    requires name in ["Abstract", "Concrete", "Standard", "Model"]
    requires name <= shown
    ensures shown != AllRulesets
  {
    assert name[0] == shown[0];
    if name == "Abstract" {
      assert name[1] == shown[1];
    }
  }

  /** One set flag (out of fewer than four) is named on its own. */
  lemma FilterLabelSingle(f: Flags)
    ensures f == Flags(true, false, false, false) ==> FilterLabel(f) == "Abstract"
    ensures f == Flags(false, true, false, false) ==> FilterLabel(f) == "Concrete"
    ensures f == Flags(false, false, true, false) ==> FilterLabel(f) == "Standard"
    ensures f == Flags(false, false, false, true) ==> FilterLabel(f) == "Model"
  {
  }

  /** Several set flags are comma-joined in the fixed order. */
  lemma FilterLabelOrder()
    ensures FilterLabel(Flags(true, false, false, true)) == "Abstract, Model"
    ensures FilterLabel(Flags(false, true, true, false)) == "Concrete, Standard"
  {
    assert FilterNames(Flags(true, false, false, true)) == ["Abstract", "Model"];
    assert FilterNames(Flags(false, true, true, false)) == ["Concrete", "Standard"];
  }

  // ---------------------------------------------------------------------
  // colorizeClassType / colorizeRulesetType

  const ColorAbstract: string := "blue"
  const ColorConcrete: string := "default"
  const ColorStandard: string := "green"
  const ColorModel: string := "magenta"

  /** A console colour tag around a text. */
  function Tag(color: string, text: string): string
  {
    "<fg=" + color + ">" + text + "</>"
  }

  function ColorizeClassType(isAbstract: bool): string
  {
    if isAbstract then Tag(ColorAbstract, "Abstract") else Tag(ColorConcrete, "Concrete")
  }

  function ColorizeRulesetType(isModel: bool): string
  {
    if isModel then Tag(ColorModel, "Model") else Tag(ColorStandard, "Standard")
  }

  /** The text between the colour tag and the closing tag. */
  function TagText(color: string, tagged: string): string
    requires |tagged| >= |color| + 8
  {
    tagged[|color| + 5..|tagged| - 3]
  }

  /** A tag gives back its text. */
  lemma TagRoundTrip(color: string, text: string)
    ensures TagText(color, Tag(color, text)) == text
  {
    var t := Tag(color, text);
    assert t == ("<fg=" + color + ">") + text + "</>";
  }

  /** Each helper shows the two values of its flag differently, and the
      label always carries the plain name of the kind. */
  lemma ColorizeLabels(isAbstract: bool, isModel: bool)
    ensures ColorizeClassType(true) != ColorizeClassType(false)
    ensures ColorizeRulesetType(true) != ColorizeRulesetType(false)
    ensures TagText(if isAbstract then ColorAbstract else ColorConcrete, ColorizeClassType(isAbstract))
         == if isAbstract then "Abstract" else "Concrete"
    ensures TagText(if isModel then ColorModel else ColorStandard, ColorizeRulesetType(isModel))
         == if isModel then "Model" else "Standard"
  {
    assert ColorizeClassType(true)[4] == 'b' && ColorizeClassType(false)[4] == 'd';
    assert ColorizeRulesetType(true)[4] == 'm' && ColorizeRulesetType(false)[4] == 'g';
    TagRoundTrip(if isAbstract then ColorAbstract else ColorConcrete, if isAbstract then "Abstract" else "Concrete");
    TagRoundTrip(if isModel then ColorModel else ColorStandard, if isModel then "Model" else "Standard");
  }

  /** Every class listed under an active filter is shown with the label of
      that filter. */
  lemma ListedLabels(f: Flags, isAbstract: bool, isModel: bool)
    requires Accepts(OnlyFilters(f), isAbstract, isModel)
    ensures OnlyFilters(f).onlyAbstract ==> ColorizeClassType(isAbstract) == Tag(ColorAbstract, "Abstract")
    ensures OnlyFilters(f).onlyConcrete ==> ColorizeClassType(isAbstract) == Tag(ColorConcrete, "Concrete")
    ensures OnlyFilters(f).onlyModel ==> ColorizeRulesetType(isModel) == Tag(ColorModel, "Model")
    ensures OnlyFilters(f).onlyStandard ==> ColorizeRulesetType(isModel) == Tag(ColorStandard, "Standard")
  {
  }
}
