/** What the two plugins read from the Maven project they run in. */
module MavenProject {
  import opened JStrings

  /** The project's Maven coordinates. */
  datatype Project = Project(groupId: JString, artifactId: JString, version: JString)

  /** The packaging both plugins skip. */
  const POM: JString := Lit("pom")
}
