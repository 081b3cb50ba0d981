/** The Java exceptions the modelled code throws or catches, by kind. */
module JavaErrors {
  datatype Exception =
    | StringIndexOutOfBounds
    | IllegalArgument(message: string)
    | Security(message: string)
    | Runtime(message: string)
    | UnsupportedOperation(message: string)
    | NoSuchBeanDefinition
    | NullPointer
    | IO
    | FileManager(message: string)
}
