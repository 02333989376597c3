/** A web dependency handed to the installer: a jar on disk, known by its
    id, packaged either as a WebJar or as an mvnpm jar. */
module WebDependencies {
  import JPaths

  datatype Kind = Webjars | Mvnpm

  datatype WebDependency = WebDependency(id: string, path: JPaths.JPath, kind: Kind)
}
