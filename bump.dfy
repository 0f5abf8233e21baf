/** Version bump arithmetic: the increment-and-reset rules of Semantic
    Versioning 2.0.0, items 6 to 8. */
module Bumping {
  import opened SemVer
  import opened Args

  /** The version a bump of the given kind produces. */
  function Bumped(v: Version, bump: VersionBump): (w: Version)
    ensures Less(v, w)
    ensures w.extra == v.extra
  {
    match bump
    case Major => v.(major := v.major + 1, minor := 0, patch := 0)
    case Minor => v.(minor := v.minor + 1, patch := 0)
    case Patch => v.(patch := v.patch + 1)
  }

  /** Each bump gives the least version above `v` in its class: a patch bump
      the next version of all, a minor bump the least one with a different
      major.minor, a major bump the least one with a greater major. */
  lemma BumpIsLeast(v: Version, bump: VersionBump, w: Version)
    requires Less(v, w)
    requires bump == Minor ==> (w.major, w.minor) != (v.major, v.minor)
    requires bump == Major ==> w.major != v.major
    ensures LessEq(Bumped(v, bump), w)
  {
  }

  /** `bump_version`: updates the fields of a copy of the latest version. */
  method BumpVersion(latest: Version, bump: VersionBump) returns (nv: Version)
    ensures nv == Bumped(latest, bump)
    ensures bump == Major ==> nv.major == latest.major + 1 && nv.minor == 0 && nv.patch == 0
    ensures bump == Minor ==> nv.major == latest.major && nv.minor == latest.minor + 1 && nv.patch == 0
    ensures bump == Patch ==> nv.major == latest.major && nv.minor == latest.minor && nv.patch == latest.patch + 1
  {
    nv := latest;
    match bump {
      case Major =>
        nv := nv.(major := nv.major + 1);
        nv := nv.(minor := 0);
        nv := nv.(patch := 0);
      case Minor =>
        nv := nv.(minor := nv.minor + 1);
        nv := nv.(patch := 0);
      case Patch =>
        nv := nv.(patch := nv.patch + 1);
    }
  }
}
