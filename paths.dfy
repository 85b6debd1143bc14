/** The file names under which downloaded photos are stored and whose text
    the handlers write into the tables: `users/<first><last>.jpg` for the
    profile photo and `hrv/<first><last>-<stage>.jpg` for the HRV images.
    Python's `+` on a missing last name (None) raises, so the name is only
    defined for users who have one. */
module Paths {
  import opened Common

  const ProfileDir := "users/"
  const HrvDir := "hrv/"
  const Extension := ".jpg"

  const SummarySuffix := "-summary"
  const GraphsSuffix := "-graphs"
  const DetailsSuffix := "-details"

  /** The profile photo's file: in `users/`, with extension `.jpg`, named
      by the first name followed directly by the last name. */
  function ProfilePhotoPath(u: User): (r: Result<string>)
    ensures r.Failure? <==> u.lastName.None?
    ensures r.Failure? ==> r.error == MissingLastName
    ensures r.Success? ==>
      && |r.value| == |ProfileDir| + |u.firstName| + |u.lastName.value| + |Extension|
      && r.value[..|ProfileDir|] == ProfileDir
      && r.value[|ProfileDir|..|r.value| - |Extension|] == u.firstName + u.lastName.value
      && r.value[|r.value| - |Extension|..] == Extension
  {
    match u.lastName
    case None => Failure(MissingLastName)
    case Some(last) => Success(ProfileDir + u.firstName + last + Extension)
  }

  /** An HRV image's file: in `hrv/`, with extension `.jpg`, named by the
      first name, the last name and the stage's suffix, in that order. */
  function HrvPhotoPath(u: User, suffix: string): (r: Result<string>)
    ensures r.Failure? <==> u.lastName.None?
    ensures r.Failure? ==> r.error == MissingLastName
    ensures r.Success? ==>
      && |r.value| == |HrvDir| + |u.firstName| + |u.lastName.value| + |suffix| + |Extension|
      && r.value[..|HrvDir|] == HrvDir
      && r.value[|HrvDir|..|r.value| - |suffix| - |Extension|] == u.firstName + u.lastName.value
      && r.value[|r.value| - |suffix| - |Extension|..|r.value| - |Extension|] == suffix
      && r.value[|r.value| - |Extension|..] == Extension
  {
    match u.lastName
    case None => Failure(MissingLastName)
    case Some(last) => Success(HrvDir + u.firstName + last + suffix + Extension)
  }

  /** `p + x + s == p + y + s` only when `x == y`. */
  lemma {:induction false} FramedEqual(p: string, x: string, y: string, s: string)
    requires p + x + s == p + y + s
    ensures x == y
  {
    var a, b := p + x + s, p + y + s;
    assert |x| == |y|;
    assert x == a[|p|..|p| + |x|];
    assert y == b[|p|..|p| + |y|];
  }

  /** Two users get the same profile photo file exactly when their first
      and last names concatenate to the same text: nothing separates the
      two names, so ("Ann", "a") and ("An", "na") share `users/Anna.jpg`. */
  lemma ProfilePathCollidesOnConcatenation(u: User, v: User)
    requires u.lastName.Some? && v.lastName.Some?
    ensures ProfilePhotoPath(u) == ProfilePhotoPath(v)
        <==> u.firstName + u.lastName.value == v.firstName + v.lastName.value
  {
    var x := u.firstName + u.lastName.value;
    var y := v.firstName + v.lastName.value;
    assert ProfilePhotoPath(u).value == ProfileDir + x + Extension;
    assert ProfilePhotoPath(v).value == ProfileDir + y + Extension;
    if ProfilePhotoPath(u) == ProfilePhotoPath(v) {
      FramedEqual(ProfileDir, x, y, Extension);
    }
  }

  lemma DistinctUsersCanShareAPhotoFile()
    ensures ProfilePhotoPath(User("Ann", Some("a"))) == ProfilePhotoPath(User("An", Some("na")))
  {
    assert "Ann" + "a" == "An" + "na";
    ProfilePathCollidesOnConcatenation(User("Ann", Some("a")), User("An", Some("na")));
  }

  /** The three HRV images of one user go to three different files, none of
      which is the user's profile photo. */
  lemma PathsOfOneUserAreDistinct(u: User)
    requires u.lastName.Some?
    ensures HrvPhotoPath(u, SummarySuffix) != HrvPhotoPath(u, GraphsSuffix)
    ensures HrvPhotoPath(u, GraphsSuffix) != HrvPhotoPath(u, DetailsSuffix)
    ensures HrvPhotoPath(u, SummarySuffix) != HrvPhotoPath(u, DetailsSuffix)
    ensures forall s :: ProfilePhotoPath(u) != HrvPhotoPath(u, s)
  {
    var p := HrvDir + u.firstName + u.lastName.value;
    var s, g, d := HrvPhotoPath(u, SummarySuffix).value, HrvPhotoPath(u, GraphsSuffix).value,
      HrvPhotoPath(u, DetailsSuffix).value;
    assert s == p + SummarySuffix + Extension && s[|p| + 1] == 's';
    assert g == p + GraphsSuffix + Extension && g[|p| + 1] == 'g';
    assert d == p + DetailsSuffix + Extension && d[|p| + 1] == 'd';
    forall t ensures ProfilePhotoPath(u) != HrvPhotoPath(u, t) {
      assert ProfilePhotoPath(u).value[0] == 'u';
      assert HrvPhotoPath(u, t).value[0] == 'h';
    }
  }
}
