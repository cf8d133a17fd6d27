/** The binding provider: validation of an item's binding string, and the
    per-item record of binding string and stored value. */
module Provider {
  import opened Wrappers
  import opened Constants

  /** The item classes the validator tells apart; every other class is known
      only by its simple name. */
  datatype ItemClass = NumberItem | StringItem | DateTimeItem | OtherItem(simpleName: string)

  datatype Item = Item(name: string, kind: ItemClass)

  function SimpleName(c: ItemClass): string {
    match c
    case NumberItem => "NumberItem"
    case StringItem => "StringItem"
    case DateTimeItem => "DateTimeItem"
    case OtherItem(n) => n
  }

  /** A `BindingConfigParseException`, with the item name and class name its
      message reports. */
  datatype ParseError = ParseError(itemName: string, itemType: string)

  /** `validateItemType`: the item must be a Number, String or DateTime item,
      and the binding string must be exactly one of the six tokens. The two
      conditions are independent: any accepted item class goes with any
      token. */
  function ValidateItemType(item: Item, bindingConfig: string): (r: Option<ParseError>)
    ensures r.None? <==>
      (item.kind == NumberItem || item.kind == StringItem || item.kind == DateTimeItem)
      && (bindingConfig == InstantToken || bindingConfig == DayTotalToken || bindingConfig == WeekTotalToken
          || bindingConfig == MonthTotalToken || bindingConfig == YearTotalToken || bindingConfig == LastMeasurementToken)
    ensures r.Some? ==> r.value == ParseError(item.name, SimpleName(item.kind))
  {
    if !item.kind.OtherItem? && KindOf(bindingConfig).Some? then None
    else Some(ParseError(item.name, SimpleName(item.kind)))
  }

  /** There is no pairing check: a DateTime item bound to a day total, or a
      Number item bound to the last measurement time, is accepted. */
  lemma NoPairingCheck(name: string, k: Kind)
    ensures ValidateItemType(Item(name, DateTimeItem), TokenOf(k)) == None
    ensures ValidateItemType(Item(name, NumberItem), TokenOf(k)) == None
    ensures ValidateItemType(Item(name, StringItem), TokenOf(k)) == None
  {
  }

  /** Tokens match case-sensitively and without trimming. */
  lemma TokensAreExact(item: Item)
    ensures ValidateItemType(item, "Instant").Some?
    ensures ValidateItemType(item, "DAYTOTAL").Some?
    ensures ValidateItemType(item, " instant").Some?
  {
  }

  /** The value a binding holds before any value is stored. */
  const NoValue: real := -1.0

  /** `EfergyEngageBindingConfig`: the raw binding string and a stored
      value. */
  datatype BindingConfig = BindingConfig(binding: string, value: real)

  /** The provider's binding configurations, by item name. */
  type Registry = map<string, BindingConfig>

  /** `getItemType`: the raw binding string of a bound item, `null` (here
      `None`) for any other. */
  function GetItemType(reg: Registry, name: string): (r: Option<string>)
    ensures r.Some? <==> name in reg
    ensures r.Some? ==> r.value == reg[name].binding
  {
    if name in reg then Some(reg[name].binding) else None
  }

  /** `getItemValue`: the stored value of a bound item, -1 for any other. */
  function GetItemValue(reg: Registry, name: string): (r: real)
    ensures name !in reg ==> r == -1.0
    ensures name in reg ==> r == reg[name].value
  {
    if name in reg then reg[name].value else NoValue
  }

  /** `processBindingConfiguration`: the item is bound to a fresh
      configuration holding the binding string as given and no value,
      replacing any earlier binding of the item. */
  function ProcessBindingConfiguration(reg: Registry, item: Item, bindingConfig: string): (r: Registry)
    ensures r.Keys == reg.Keys + {item.name}
    ensures GetItemType(r, item.name) == Some(bindingConfig)
    ensures GetItemValue(r, item.name) == -1.0
    ensures forall n :: n != item.name ==> GetItemType(r, n) == GetItemType(reg, n) && GetItemValue(r, n) == GetItemValue(reg, n)
  {
    reg[item.name := BindingConfig(bindingConfig, NoValue)]
  }

  /** `setItemValue`: a bound item stores the value; an unbound item changes
      nothing. */
  function SetItemValue(reg: Registry, name: string, value: real): (r: Registry)
    ensures r.Keys == reg.Keys
    ensures name !in reg ==> r == reg
    ensures name in reg ==> GetItemValue(r, name) == value && GetItemType(r, name) == GetItemType(reg, name)
    ensures forall n :: n != name ==> n in r ==> r[n] == reg[n]
  {
    if name in reg then reg[name := reg[name].(value := value)] else reg
  }

  /** Storing a value and reading it back, for a bound item; every other item
      reads as before. */
  lemma SetThenGet(reg: Registry, name: string, value: real, other: string)
    requires name in reg && other != name
    ensures GetItemValue(SetItemValue(reg, name, value), name) == value
    ensures GetItemValue(SetItemValue(reg, name, value), other) == GetItemValue(reg, other)
    ensures GetItemType(SetItemValue(reg, name, value), other) == GetItemType(reg, other)
  {
  }

  /** A binding declared in the item configuration: the framework validates
      it and, if valid, processes it. */
  function Declare(reg: Registry, item: Item, bindingConfig: string): (r: Result<Registry, ParseError>)
    ensures r.Failure? <==> ValidateItemType(item, bindingConfig).Some?
    ensures r.Success? ==> r.value == ProcessBindingConfiguration(reg, item, bindingConfig)
    ensures r.Failure? ==> r.error.itemName == item.name
  {
    match ValidateItemType(item, bindingConfig)
    case Some(e) => Failure(e)
    case None => Success(ProcessBindingConfiguration(reg, item, bindingConfig))
  }

  /** Every binding string in the registry is one of the six tokens. */
  predicate WellBound(reg: Registry) {
    forall n :: n in reg ==> KindOf(reg[n].binding).Some?
  }

  /** Declaring and storing values keep every binding string recognised, so a
      registry filled only through declarations never holds a binding the
      poll cycle would skip. */
  lemma DeclaredBindingsAreRecognised(reg: Registry, item: Item, bindingConfig: string, name: string, value: real)
    requires WellBound(reg)
    ensures Declare(reg, item, bindingConfig).Success? ==> WellBound(Declare(reg, item, bindingConfig).value)
    ensures WellBound(SetItemValue(reg, name, value))
  {
  }
}
