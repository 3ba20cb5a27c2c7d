/** The descriptor of one registered service (models/SystemCtlService.kt). */
module Models {
  /** `id` is the registration number taken from the resource's counter; `content` is the
      unit-file text and `jarFileName` the artifact, both passed through unmodified. */
  datatype SystemCtlService = SystemCtlService(id: nat, name: string, content: string, jarFileName: string)
}
