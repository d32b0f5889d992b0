/** The options the core reads. Selectors, the debounce rate and the debug
    flag are consumed by parts of the program outside this model. */
module Config {

  datatype Options = Options(
    activeClass: string,
    /** Read by the heading string that the layout builder computes and then
        discards, so it never reaches the output. */
    columnHeadingClass: string,
    subHeadingClass: string,
    tableDataClass: string)

  /** The built-in defaults of the plugin. */
  const Defaults: Options := Options(
    "responsibleTable--active",
    "responsibleTable__column-heading",
    "responsibleTable__sub-heading",
    "responsibleTable__table-data")
}
