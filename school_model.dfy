/**
 * The school document (School.js): one institution of the directory and the
 * users who administer it.
 */
module SchoolModel {
  import opened Common

  datatype SchoolType = FederalGovernmentCollege | FederalGovernmentGirlsCollege | KingsCollege
                      | QueensCollege | FederalScienceCollege | OtherType

  datatype Gender = Male | Female | Mixed

  /** The six geopolitical zones a school can lie in. */
  datatype Region = NorthEast | NorthCentral | NorthWest | SouthWest | SouthEast | SouthSouth

  datatype SchoolLocation = SchoolLocation(city: string, state: string, region: Region, country: string)

  datatype School = School(
    name: string,
    shortName: string,
    schoolType: SchoolType,
    gender: Gender,
    location: SchoolLocation,
    foundedYear: Option<int>,
    logo: Option<string>,
    banner: Option<string>,
    description: Option<string>,
    website: Option<string>,
    email: Option<string>,
    phoneNumber: Option<string>,
    address: Option<string>,
    adminUsers: seq<Id>,
    alumniCount: int,
    isActive: bool,
    createdAt: Time,
    updatedAt: Time)

  /** A school as the schema completes it: no alumni counted yet, and active. */
  function NewSchool(name: string, shortName: string, schoolType: SchoolType, gender: Gender,
                     location: SchoolLocation, foundedYear: Option<int>, description: Option<string>,
                     website: Option<string>, email: Option<string>, phoneNumber: Option<string>,
                     address: Option<string>, adminUsers: seq<Id>, now: Time): (s: School)
    ensures s.name == name && s.adminUsers == adminUsers && s.location == location
    ensures s.alumniCount == 0 && s.isActive
    ensures s.logo == None && s.banner == None
  {
    School(name, shortName, schoolType, gender, location, foundedYear, None, None, description,
           website, email, phoneNumber, address, adminUsers, 0, true, now, now)
  }

  /** No two schools of the directory share a name (the unique index on `name`). */
  predicate UniqueNames(schools: map<Id, School>) {
    forall a, b :: a in schools && b in schools && a != b ==> schools[a].name != schools[b].name
  }

  /** Some school of the directory, active or not, carries this name. */
  predicate NameTaken(schools: map<Id, School>, name: string) {
    exists s :: s in schools && schools[s].name == name
  }
}
