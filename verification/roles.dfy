/** The closed set of role variants, their display names and the role factory. */
module Roles {
  import opened Types

  /** The names each role carries (its `.name`). */
  const WolfName: string := "狼人"
  const VillagerName: string := "平民"
  const WitchName: string := "女巫"
  const SeerName: string := "预言家"
  const HunterName: string := "猎人"

  /** The seer's verdict on a non-wolf. */
  const GoodName: string := "好人"

  /** A role. The witch carries two single-use potions. */
  datatype Role =
    | Wolf
    | Villager
    | Witch(hasPoison: bool, hasAntidote: bool)
    | Seer
    | Hunter

  /** A witch as its constructor builds it: both potions in hand. */
  const NewWitch: Role := Witch(true, true)

  function Name(r: Role): string {
    match r
    case Wolf => WolfName
    case Villager => VillagerName
    case Witch(_, _) => WitchName
    case Seer => SeerName
    case Hunter => HunterName
  }

  /** Both roles are the same variant; a witch's potions may differ. */
  predicate SameKind(a: Role, b: Role) {
    || (a.Wolf? && b.Wolf?)
    || (a.Villager? && b.Villager?)
    || (a.Witch? && b.Witch?)
    || (a.Seer? && b.Seer?)
    || (a.Hunter? && b.Hunter?)
  }

  /** A role in the state its constructor leaves it in. */
  predicate IsFresh(r: Role) {
    r.Witch? ==> r == NewWitch
  }

  /** `b` is `a` after possibly spending potions: same variant, and no potion
      the witch lacks in `a` is back in `b`. */
  predicate Spent(a: Role, b: Role) {
    && SameKind(a, b)
    && (a.Witch? ==> (b.hasPoison ==> a.hasPoison) && (b.hasAntidote ==> a.hasAntidote))
  }

  /** The role factory: one of the five names gives a fresh role of that name,
      anything else raises. */
  function CreateRole(name: string): (r: Result<Role>)
    ensures r.Ok? <==> name in {WolfName, VillagerName, WitchName, SeerName, HunterName}
    ensures r.Ok? ==> Name(r.value) == name && IsFresh(r.value)
    ensures r.Fail? ==> r.error == UnknownRole(name)
  {
    if name == WolfName then Ok(Wolf)
    else if name == VillagerName then Ok(Villager)
    else if name == WitchName then Ok(NewWitch)
    else if name == SeerName then Ok(Seer)
    else if name == HunterName then Ok(Hunter)
    else Fail(UnknownRole(name))
  }

  /** The name tells the variant apart, and only the variant. */
  lemma NameIdentifiesKind(a: Role, b: Role)
    ensures Name(a) == Name(b) <==> SameKind(a, b)
  {
  }

  /** Building a role from its own name gives the role back. */
  lemma CreateRoleRoundTrip(r: Role)
    requires IsFresh(r)
    ensures CreateRole(Name(r)) == Ok(r)
  {
  }

  lemma SpentIsTransitive(a: Role, b: Role, c: Role)
    requires Spent(a, b) && Spent(b, c)
    ensures Spent(a, c)
  {
  }
}
