/**
 * The records the service stores and returns, and the ways an operation
 * can fail.
 */
module Records {

  /** A project, as kept in the catalog and in a resume's project list. */
  datatype Project = Project(name: string, description: string, url: string, score: real)

  /** A resume; its email is the key under which the store keeps it. */
  datatype Resume = Resume(
    name: string,
    email: string,
    skills: seq<string>,
    experience: seq<string>,
    projects: seq<Project>)

  /** The failures the handlers report, each with its own message. */
  datatype Error =
    | Conflict        // "Resume already exists" (HTTP 400)
    | NotFound        // "Resume not found" (HTTP 404)
    | Unavailable     // "No projects available" (HTTP 500)
    | NegativeLimit   // slicing by a negative top_n panics (HTTP 500 from the recovery handler)

  datatype Result<T> = Ok(value: T) | Err(error: Error)
}
