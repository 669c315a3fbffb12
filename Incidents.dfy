/** The incident record: one row of the California wildfire incidents table. */
module Incidents {

  datatype Option<T> = None | Some(value: T)

  /** One incident row. The fields carry the column names the dashboard uses
      after renaming `Latitude`/`Longitude` to `lat`/`lon`:
      year = ArchiveYear, county = Counties, name = Name, url = CanonicalUrl,
      location = Location, major = MajorIncident, acres = AcresBurned,
      fatalities = Fatalities, injuries = Injuries, personnel = PersonnelInvolved.
      The table has further columns that no code path reads but that take part
      in exact-duplicate detection; they are kept, as text, in `otherColumns`. */
  datatype Incident = Incident(
    year: int,
    county: string,
    name: string,
    url: string,
    location: string,
    lat: real,
    lon: real,
    major: bool,
    acres: int,
    fatalities: int,
    injuries: int,
    personnel: int,
    otherColumns: seq<string>)

  // Column accessors, for use as the column argument of sums and groupings.

  function YearOf(r: Incident): int { r.year }

  function CountyOf(r: Incident): string { r.county }

  function AcresOf(r: Incident): int { r.acres }

  function FatalitiesOf(r: Incident): int { r.fatalities }

  function InjuriesOf(r: Incident): int { r.injuries }

  function PersonnelOf(r: Incident): int { r.personnel }
}
