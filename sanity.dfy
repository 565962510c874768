/** The content records the pages list, as the content store delivers them; an optional
    field of the record is an `Option`. Only the fields the list pages read are kept. */
module Sanity {
  import opened Options

  datatype Member = Member(
    id: string,
    memberId: Option<int>,
    firstName: string,
    lastName: string,
    slug: string,
    school: Option<string>,
    program: Option<string>,
    graduatingClass: Option<string>,
    specialties: Option<seq<string>>,
    workSchedule: Option<seq<string>>)

  datatype Project = Project(
    id: string,
    title: string,
    slug: string,
    yearCompleted: int,
    client: string,
    category: Option<string>)
}
