/** The printer models the tool knows (niimprint/models.py). */
module Models {
  /** `Device`: a model's name and the largest density and width it prints. */
  datatype Device = Device(name: string, maxDensity: int, maxWidth: int)

  /** `SUPPORTED_DEVICES` */
  const SupportedDevices: map<string, Device> := map[
    "D11" := Device("D11", 3, 96),
    "D110" := Device("D110", 3, 96),
    "B1" := Device("B1", 5, 384),
    "B18" := Device("B18", 3, 384),
    "B21" := Device("B21", 5, 384)
  ]

  /** The density range the command line accepts (`click.IntRange(1, 5)`). */
  const MinCliDensity := 1
  const MaxCliDensity := 5

  /** `SupportedDevice`, the enumeration built from the table's keys, in the table's order. */
  datatype SupportedDevice = D11 | D110 | B1 | B18 | B21

  /** The member's name, which is its key in the table. */
  function Name(m: SupportedDevice): (n: string)
    ensures n in SupportedDevices && SupportedDevices[n].name == n
  {
    match m
    case D11 => "D11"
    case D110 => "D110"
    case B1 => "B1"
    case B18 => "B18"
    case B21 => "B21"
  }

  /** `SUPPORTED_DEVICES[model.name]`: never a KeyError. */
  function Profile(m: SupportedDevice): (d: Device)
    ensures d.name == Name(m)
    ensures MinCliDensity <= d.maxDensity <= MaxCliDensity && d.maxWidth > 0
  {
    SupportedDevices[Name(m)]
  }

  /** The table holds exactly the five models, each filed under its own name. */
  lemma TableKeys()
    ensures SupportedDevices.Keys == {"D11", "D110", "B1", "B18", "B21"}
    ensures forall k :: k in SupportedDevices ==> SupportedDevices[k].name == k
  {
  }

  /** The enumeration's members are exactly the table's keys, one member per key. */
  lemma EnumerationMatchesTable()
    ensures forall k :: k in SupportedDevices <==> exists m :: Name(m) == k
    ensures forall m1, m2 :: Name(m1) == Name(m2) ==> m1 == m2
  {
    forall k | k in SupportedDevices ensures exists m :: Name(m) == k {
      TableKeys();
      if k == "D11" { assert Name(D11) == k; }
      else if k == "D110" { assert Name(D110) == k; }
      else if k == "B1" { assert Name(B1) == k; }
      else if k == "B18" { assert Name(B18) == k; }
      else { assert Name(B21) == k; }
    }
  }

  /** Each model's limits. */
  lemma DeviceLimits()
    ensures Profile(D11).maxDensity == 3 && Profile(D11).maxWidth == 96
    ensures Profile(D110).maxDensity == 3 && Profile(D110).maxWidth == 96
    ensures Profile(B1).maxDensity == 5 && Profile(B1).maxWidth == 384
    ensures Profile(B18).maxDensity == 3 && Profile(B18).maxWidth == 384
    ensures Profile(B21).maxDensity == 5 && Profile(B21).maxWidth == 384
  {
  }
}
