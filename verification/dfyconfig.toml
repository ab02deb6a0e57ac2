# project settings
includes = ["**/*.dfy"]
