/** The configuration records and the builder of the form rows that the
    booking service receives as the applicant's data. The user and
    application configurations, which the program loads once into globals,
    are parameters here. */
module Config {

  /** A place reservations are made at: a city office or a department. */
  datatype Entity = Entity(name: string, shortName: string, queue: string, id: string)

  /** One (name, value) field of the submitted form. */
  datatype Row = Row(name: string, value: string)

  /** The localised labels of the form. */
  datatype Strings = Strings(
    residenceTypeHeader: string,
    residenceTypeTemporary: string,
    residenceTypePermanent: string,
    nameSurnameHeader: string,
    citizenshipHeader: string,
    dateOfBirthHeader: string,
    phoneHeader: string,
    passportHeader: string,
    residenceCardHeader: string,
    dataProcessingHeader: string,
    dataProcessingValue: string,
    additionalApplicationsHeader: string,
    additionalApplicationTypeChild: string,
    additionalApplicationTypeSpouse: string,
    additionalApplicationTypeChildren: string)

  /** The applicant's details. */
  datatype UserConfig = UserConfig(
    login: string,
    password: string,
    name: string,
    surname: string,
    dateOfBirth: string,
    citizenship: string,
    phone: string,
    passport: string,
    residenceCard: string,
    residenceType: string,
    additionalApplications: seq<string>)

  /** Every residence type except the exact word "temporary" (the empty one
      included) counts as permanent. */
  predicate IsPermanentResidence(u: UserConfig) {
    u.residenceType != "temporary"
  }

  /** The label of an additional application: one of three known kinds, and
      empty for anything else. */
  function ApplicantLabel(kind: string, s: Strings): string {
    if kind == "child" then s.additionalApplicationTypeChild
    else if kind == "spouse" then s.additionalApplicationTypeSpouse
    else if kind == "children" then s.additionalApplicationTypeChildren
    else ""
  }

  /** Builds the form rows: residence type, name, citizenship, date of
      birth, phone, passport, the residence card when one is given, the
      data-processing consent, and one row per additional application in
      the order given. */
  method CollectUserData(u: UserConfig, s: Strings) returns (data: seq<Row>)
    ensures var card := if u.residenceCard != "" then 1 else 0;
      |data| == 7 + card + |u.additionalApplications|
    ensures data[0] == Row(s.residenceTypeHeader,
      if u.residenceType == "temporary" then s.residenceTypeTemporary else s.residenceTypePermanent)
    ensures data[1] == Row(s.nameSurnameHeader, u.surname + " " + u.name)
    ensures data[2] == Row(s.citizenshipHeader, u.citizenship)
    ensures data[3] == Row(s.dateOfBirthHeader, u.dateOfBirth)
    ensures data[4] == Row(s.phoneHeader, u.phone)
    ensures data[5] == Row(s.passportHeader, u.passport)
    ensures u.residenceCard != "" ==> data[6] == Row(s.residenceCardHeader, u.residenceCard)
    ensures var card := if u.residenceCard != "" then 1 else 0;
      data[6 + card] == Row(s.dataProcessingHeader, s.dataProcessingValue)
    ensures var first := if u.residenceCard != "" then 8 else 7;
      forall k :: 0 <= k < |u.additionalApplications| ==>
        data[first + k] == Row(s.additionalApplicationsHeader, ApplicantLabel(u.additionalApplications[k], s))
  {
    data := [];
    if IsPermanentResidence(u) {
      data := data + [Row(s.residenceTypeHeader, s.residenceTypePermanent)];
    } else {
      data := data + [Row(s.residenceTypeHeader, s.residenceTypeTemporary)];
    }
    data := data + [Row(s.nameSurnameHeader, u.surname + " " + u.name)];
    data := data + [Row(s.citizenshipHeader, u.citizenship)];
    data := data + [Row(s.dateOfBirthHeader, u.dateOfBirth)];
    data := data + [Row(s.phoneHeader, u.phone)];
    data := data + [Row(s.passportHeader, u.passport)];
    if u.residenceCard != "" {
      data := data + [Row(s.residenceCardHeader, u.residenceCard)];
    }
    data := data + [Row(s.dataProcessingHeader, s.dataProcessingValue)];
    ghost var fixed := data;
    var apps := u.additionalApplications;
    var i := 0;
    while i < |apps|
      invariant 0 <= i <= |apps|
      invariant |data| == |fixed| + i
      invariant data[..|fixed|] == fixed
      invariant forall k :: 0 <= k < i ==>
        data[|fixed| + k] == Row(s.additionalApplicationsHeader, ApplicantLabel(apps[k], s))
    {
      var applicant := "";
      if apps[i] == "child" {
        applicant := s.additionalApplicationTypeChild;
      } else if apps[i] == "spouse" {
        applicant := s.additionalApplicationTypeSpouse;
      } else if apps[i] == "children" {
        applicant := s.additionalApplicationTypeChildren;
      }
      data := data + [Row(s.additionalApplicationsHeader, applicant)];
      i := i + 1;
    }
  }
}
